/** The pieces of canonical JSON text: quoted strings, key order and comma-separated lists. */
module JcsText {
  import opened Wrappers

  /** A UTF-16 code unit; JavaScript strings are sequences of them, surrogates included. */
  type Unit = x: int | 0 <= x < 0x10000
  type Text = seq<Unit>

  const QUOTE: Unit := 0x22
  const BACKSLASH: Unit := 0x5c
  const COMMA: Unit := 0x2c
  const COLON: Unit := 0x3a
  const OPEN_BRACKET: Unit := 0x5b
  const CLOSE_BRACKET: Unit := 0x5d
  const OPEN_BRACE: Unit := 0x7b
  const CLOSE_BRACE: Unit := 0x7d

  // ---- strings

  predicate HighSurrogate(u: Unit) { 0xd800 <= u < 0xdc00 }
  predicate LowSurrogate(u: Unit) { 0xdc00 <= u < 0xe000 }

  /** Lower-case hexadecimal. */
  function HexDigit(d: nat): Unit
    requires d < 16
  {
    if d < 10 then 0x30 + d else 0x61 + (d - 10)
  }

  /** Hexadecimal in either case. */
  function HexValue(u: Unit): Option<nat> {
    if 0x30 <= u <= 0x39 then Some(u - 0x30)
    else if 0x41 <= u <= 0x46 then Some(u - 0x41 + 10)
    else if 0x61 <= u <= 0x66 then Some(u - 0x61 + 10)
    else None
  }

  function UnicodeEscape(u: Unit): Text {
    [BACKSLASH, 0x75, HexDigit(u / 16 / 16 / 16), HexDigit(u / 16 / 16 % 16), HexDigit(u / 16 % 16), HexDigit(u % 16)]
  }

  /** One unit of a string; a surrogate reaching here is a lone one. */
  function EscapeUnit(u: Unit): Text {
    if u == QUOTE then [BACKSLASH, QUOTE]
    else if u == BACKSLASH then [BACKSLASH, BACKSLASH]
    else if u == 0x08 then [BACKSLASH, 0x62]
    else if u == 0x09 then [BACKSLASH, 0x74]
    else if u == 0x0a then [BACKSLASH, 0x6e]
    else if u == 0x0c then [BACKSLASH, 0x66]
    else if u == 0x0d then [BACKSLASH, 0x72]
    else if u < 0x20 || HighSurrogate(u) || LowSurrogate(u) then UnicodeEscape(u)
    else [u]
  }

  function Escape(s: Text): Text {
    if s == [] then []
    else if |s| > 1 && HighSurrogate(s[0]) && LowSurrogate(s[1]) then [s[0], s[1]] + Escape(s[2..])
    else EscapeUnit(s[0]) + Escape(s[1..])
  }

  function Quote(s: Text): Text { [QUOTE] + Escape(s) + [QUOTE] }

  /** What a one-letter escape stands for. */
  function ShortEscape(u: Unit): Option<Unit> {
    if u == QUOTE || u == BACKSLASH || u == 0x2f then Some(u)
    else if u == 0x62 then Some(0x08)
    else if u == 0x74 then Some(0x09)
    else if u == 0x6e then Some(0x0a)
    else if u == 0x66 then Some(0x0c)
    else if u == 0x72 then Some(0x0d)
    else None
  }

  /**
   * Reads string contents up to the closing quote: the string and the text after the quote. As
   * section 7 of RFC 8259 has it, control characters stand only in escapes; nor may half a surrogate
   * pair stand alone, which no encoding of the text could write.
   */
  function ReadString(t: Text): (r: Option<(Text, Text)>)
    ensures r.Some? ==> |r.value.1| < |t|
    decreases |t|
  {
    if t == [] then None
    else if t[0] == QUOTE then Some(([], t[1..]))
    else if t[0] != BACKSLASH then
      if t[0] < 0x20 || LowSurrogate(t[0]) then None
      else if !HighSurrogate(t[0]) then PrependUnit(t[0], ReadString(t[1..]))
      else if |t| < 2 || !LowSurrogate(t[1]) then None
      else PrependUnit(t[0], PrependUnit(t[1], ReadString(t[2..])))
    else if |t| < 2 then None
    else if ShortEscape(t[1]).Some? then PrependUnit(ShortEscape(t[1]).value, ReadString(t[2..]))
    else if |t| < 6 || t[1] != 0x75 then None
    else
      match ReadHex(t[2], t[3], t[4], t[5])
      case None => None
      case Some(u) => PrependUnit(u, ReadString(t[6..]))
  }

  function ReadHex(a: Unit, b: Unit, c: Unit, d: Unit): Option<Unit> {
    match (HexValue(a), HexValue(b), HexValue(c), HexValue(d))
    case (Some(w), Some(x), Some(y), Some(z)) => Some(((w * 16 + x) * 16 + y) * 16 + z)
    case _ => None
  }

  function PrependUnit(u: Unit, r: Option<(Text, Text)>): Option<(Text, Text)> {
    match r
    case None => None
    case Some((s, rest)) => Some(([u] + s, rest))
  }

  lemma HexRoundTrip(u: Unit)
    ensures ReadHex(HexDigit(u / 16 / 16 / 16), HexDigit(u / 16 / 16 % 16), HexDigit(u / 16 % 16), HexDigit(u % 16))
      == Some(u)
  {
  }

  lemma ReadsPlain(u: Unit, t: Text)
    requires u != QUOTE && u != BACKSLASH && u >= 0x20 && !HighSurrogate(u) && !LowSurrogate(u)
    ensures ReadString([u] + t) == PrependUnit(u, ReadString(t))
  {
  }

  lemma ReadsPair(high: Unit, low: Unit, t: Text)
    requires HighSurrogate(high) && LowSurrogate(low)
    ensures ReadString([high, low] + t) == PrependUnit(high, PrependUnit(low, ReadString(t)))
  {
    assert ([high, low] + t)[2..] == t;
  }

  lemma ReadsShort(letter: Unit, u: Unit, rest: Text)
    requires ShortEscape(letter) == Some(u)
    ensures ReadString([BACKSLASH, letter] + rest) == PrependUnit(u, ReadString(rest))
  {
  }

  lemma ReadsHex(a: Unit, b: Unit, c: Unit, d: Unit, u: Unit, rest: Text)
    requires ReadHex(a, b, c, d) == Some(u)
    ensures ReadString([BACKSLASH, 0x75, a, b, c, d] + rest) == PrependUnit(u, ReadString(rest))
  {
    assert ([BACKSLASH, 0x75, a, b, c, d] + rest)[6..] == rest;
  }

  lemma ReadsUnicode(u: Unit, rest: Text)
    ensures ReadString(UnicodeEscape(u) + rest) == PrependUnit(u, ReadString(rest))
  {
    HexRoundTrip(u);
    ReadsHex(HexDigit(u / 16 / 16 / 16), HexDigit(u / 16 / 16 % 16), HexDigit(u / 16 % 16), HexDigit(u % 16), u, rest);
  }

  lemma ReadsUnit(u: Unit, rest: Text)
    ensures ReadString(EscapeUnit(u) + rest) == PrependUnit(u, ReadString(rest))
  {
    if |EscapeUnit(u)| == 6 {
      ReadsUnicode(u, rest);
    } else if |EscapeUnit(u)| == 2 {
      ReadsShort(EscapeUnit(u)[1], u, rest);
    } else {
      ReadsPlain(u, rest);
    }
  }

  /** What can stand for a unit inside a string: the text that reads as just that unit. */
  ghost predicate StandsFor(t: Text, u: Unit) {
    ReadString(t + [QUOTE]) == Some(([u], []))
  }

  lemma EscapeStandsFor(u: Unit)
    ensures StandsFor(EscapeUnit(u), u)
  {
    ReadsUnit(u, [QUOTE]);
    assert ReadString([QUOTE]) == Some(([], []));
    assert [u] + [] == [u];
  }

  /** The first unit read tells how long the text that stands for it is at least. */
  lemma FirstRead(t: Text, u: Unit)
    requires t != [] && t[0] != QUOTE && ReadString(t).Some?
    requires ReadString(t).value.0 != [] && ReadString(t).value.0[0] == u
    ensures t[0] != BACKSLASH && !HighSurrogate(t[0]) ==> u == t[0] && u >= 0x20 && !LowSurrogate(u)
    ensures t[0] == BACKSLASH ==> |t| >= 2 && (ShortEscape(t[1]) == Some(u) || (|t| >= 6 && HexValue(t[5]).Some?))
    ensures HighSurrogate(t[0]) ==> |ReadString(t).value.0| >= 2
  {
  }

  lemma ShortestOf(u: Unit)
    ensures u >= 0x20 && u != QUOTE && u != BACKSLASH && !HighSurrogate(u) && !LowSurrogate(u) ==> |EscapeUnit(u)| == 1
    ensures (exists letter :: ShortEscape(letter) == Some(u)) ==> |EscapeUnit(u)| <= 2
    ensures |EscapeUnit(u)| <= 6
  {
  }

  /** Neither nothing, nor what begins with a quote, nor a backslash alone stands for a unit. */
  lemma StandsForNone(t: Text, u: Unit)
    requires t == [] || t[0] == QUOTE || t == [BACKSLASH]
    ensures !StandsFor(t, u)
  {
    if t == [BACKSLASH] {
      assert (t + [QUOTE])[2..] == [];
      assert ReadString([]) == None;
    }
  }

  /** Nothing stands for a unit in fewer units than its escape. */
  lemma EscapeIsShortest(u: Unit, t: Text)
    requires StandsFor(t, u)
    ensures |EscapeUnit(u)| <= |t|
  {
    if t == [] || t[0] == QUOTE || t == [BACKSLASH] {
      StandsForNone(t, u);
    } else {
      FirstRead(t + [QUOTE], u);
      ShortestOf(u);
      assert (t + [QUOTE])[|t|] == QUOTE && HexValue(QUOTE).None?;
    }
  }

  /** Hexadecimal digits of an escape are in lower case. */
  lemma EscapeIsLowerCase(u: Unit)
    ensures |EscapeUnit(u)| == 6 ==> forall x :: x in EscapeUnit(u) ==> !(0x41 <= x <= 0x46)
  {
  }

  lemma Assoc(a: Text, b: Text, c: Text)
    ensures a + b + c == a + (b + c)
  {
  }

  /** Reading back a quoted string gives the string and whatever followed it. */
  lemma {:induction false} ReadsQuoted(s: Text, rest: Text)
    ensures ReadString(Escape(s) + ([QUOTE] + rest)) == Some((s, rest))
    decreases |s|
  {
    var end := [QUOTE] + rest;
    if s == [] {
      assert Escape(s) + end == end;
      assert end[1..] == rest;
    } else if |s| > 1 && HighSurrogate(s[0]) && LowSurrogate(s[1]) {
      ReadsQuoted(s[2..], rest);
      Assoc([s[0], s[1]], Escape(s[2..]), end);
      ReadsPair(s[0], s[1], Escape(s[2..]) + end);
      assert s == [s[0]] + ([s[1]] + s[2..]);
    } else {
      ReadsQuoted(s[1..], rest);
      Assoc(EscapeUnit(s[0]), Escape(s[1..]), end);
      ReadsUnit(s[0], Escape(s[1..]) + end);
      assert s == [s[0]] + s[1..];
    }
  }

  lemma QuotedTail(s: Text, x: Text)
    ensures (Quote(s) + x)[1..] == Escape(s) + ([QUOTE] + x)
  {
  }

  /** A quoted string determines the string and where it ends. */
  lemma QuoteUnique(s: Text, x: Text, t: Text, y: Text)
    requires Quote(s) + x == Quote(t) + y
    ensures s == t && x == y
  {
    QuotedTail(s, x);
    QuotedTail(t, y);
    ReadsQuoted(s, x);
    ReadsQuoted(t, y);
  }

  // ---- key order

  /** Strict order by UTF-16 code unit, a proper prefix first. */
  predicate Less(a: Text, b: Text) {
    if b == [] then false
    else if a == [] then true
    else a[0] < b[0] || (a[0] == b[0] && Less(a[1..], b[1..]))
  }

  /** At position k, up to which they agree, the first text ends or has the smaller unit. */
  ghost predicate SmallerAt(a: Text, b: Text, k: nat) {
    k <= |a| && k < |b| && a[..k] == b[..k] && (k == |a| || a[k] < b[k])
  }

  /** The order is that of the first unit in which two texts differ. */
  lemma {:induction false} LessIffSmallerAt(a: Text, b: Text)
    ensures Less(a, b) <==> exists k :: SmallerAt(a, b, k)
  {
    if b != [] && (a == [] || a[0] < b[0]) {
      assert SmallerAt(a, b, 0);
    } else if b != [] && a[0] == b[0] {
      LessIffSmallerAt(a[1..], b[1..]);
      if k: nat :| SmallerAt(a[1..], b[1..], k) {
        assert a[..k + 1] == [a[0]] + a[1..][..k] && b[..k + 1] == [b[0]] + b[1..][..k];
        assert SmallerAt(a, b, k + 1);
      }
      if k: nat :| SmallerAt(a, b, k) {
        assert k > 0;
        assert a[..k][1..] == a[1..][..k - 1] && b[..k][1..] == b[1..][..k - 1];
        assert SmallerAt(a[1..], b[1..], k - 1);
      }
    } else if b != [] {
      forall k: nat ensures !SmallerAt(a, b, k) {
        assert k > 0 && k <= |a| && k < |b| ==> a[..k][0] == a[0] && b[..k][0] == b[0];
      }
    }
  }

  lemma {:induction false} LessTotal(a: Text, b: Text)
    ensures Less(a, b) || a == b || Less(b, a)
    ensures !(Less(a, b) && Less(b, a)) && !(a == b && Less(a, b))
  {
    if a != [] && b != [] {
      LessTotal(a[1..], b[1..]);
      assert a == [a[0]] + a[1..] && b == [b[0]] + b[1..];
    }
  }

  lemma {:induction false} LessTransitive(a: Text, b: Text, c: Text)
    requires Less(a, b) && Less(b, c)
    ensures Less(a, c)
  {
    if a != [] && a[0] == b[0] == c[0] {
      LessTransitive(a[1..], b[1..], c[1..]);
    }
  }

  /** A key with what it stands for: a member's value, or the text of one. */
  datatype Entry<T> = Entry(key: Text, value: T)

  ghost predicate KeysAscend<T>(es: seq<Entry<T>>) {
    forall i, j :: 0 <= i < j < |es| ==> Less(es[i].key, es[j].key)
  }

  ghost predicate KeysDistinct<T>(es: seq<Entry<T>>) {
    forall i, j :: 0 <= i < j < |es| ==> es[i].key != es[j].key
  }

  function InsertEntry<T>(e: Entry<T>, es: seq<Entry<T>>): seq<Entry<T>> {
    if es == [] || Less(e.key, es[0].key) then [e] + es else [es[0]] + InsertEntry(e, es[1..])
  }

  function SortEntries<T>(es: seq<Entry<T>>): seq<Entry<T>> {
    if es == [] then [] else InsertEntry(es[0], SortEntries(es[1..]))
  }

  lemma {:induction false} InsertEntryMembers<T>(e: Entry<T>, es: seq<Entry<T>>, x: Entry<T>)
    ensures x in InsertEntry(e, es) <==> x == e || x in es
  {
    if es != [] && !Less(e.key, es[0].key) {
      InsertEntryMembers(e, es[1..], x);
      assert es == [es[0]] + es[1..];
    }
  }

  lemma {:induction false} SortEntriesMembers<T>(es: seq<Entry<T>>, x: Entry<T>)
    ensures x in SortEntries(es) <==> x in es
  {
    if es != [] {
      SortEntriesMembers(es[1..], x);
      InsertEntryMembers(es[0], SortEntries(es[1..]), x);
      assert es == [es[0]] + es[1..];
    }
  }

  lemma {:induction false} InsertEntryAscends<T>(e: Entry<T>, es: seq<Entry<T>>)
    requires KeysAscend(es) && forall x :: x in es ==> x.key != e.key
    ensures KeysAscend(InsertEntry(e, es))
  {
    if es == [] {
    } else if Less(e.key, es[0].key) {
      forall j | 0 < j < |es| ensures Less(e.key, es[j].key) {
        LessTransitive(e.key, es[0].key, es[j].key);
      }
    } else {
      LessTotal(e.key, es[0].key);
      assert es[0] in es;
      InsertEntryAscends(e, es[1..]);
      forall x | x in InsertEntry(e, es[1..]) ensures Less(es[0].key, x.key) {
        InsertEntryMembers(e, es[1..], x);
      }
    }
  }

  lemma {:induction false} SortEntriesAscends<T>(es: seq<Entry<T>>)
    requires KeysDistinct(es)
    ensures KeysAscend(SortEntries(es))
  {
    if es != [] {
      SortEntriesAscends(es[1..]);
      forall x | x in SortEntries(es[1..]) ensures x.key != es[0].key {
        SortEntriesMembers(es[1..], x);
      }
      InsertEntryAscends(es[0], SortEntries(es[1..]));
    }
  }

  lemma AscendingTail<T>(a: seq<Entry<T>>, x: Entry<T>)
    requires KeysAscend(a) && a != []
    ensures x in a[1..] <==> x in a && x != a[0]
  {
    LessTotal(x.key, x.key);
    assert a == [a[0]] + a[1..];
  }

  /** Ascending entry lists with the same members are the same list. */
  lemma {:induction false} AscendingUnique<T>(a: seq<Entry<T>>, b: seq<Entry<T>>)
    requires KeysAscend(a) && KeysAscend(b)
    requires forall x :: x in a <==> x in b
    ensures a == b
  {
    assert b != [] ==> b[0] in a;
    if a != [] {
      assert a[0] in b && b[0] in a;
      LessTotal(a[0].key, b[0].key);
      assert a[0] == b[0];
      forall x ensures x in a[1..] <==> x in b[1..] {
        AscendingTail(a, x);
        AscendingTail(b, x);
      }
      AscendingUnique(a[1..], b[1..]);
    }
  }

  // ---- comma-separated lists

  /** The text after a value can only be a separator or a closing bracket, or nothing. */
  predicate Ends(t: Text) {
    t == [] || t[0] == COMMA || t[0] == CLOSE_BRACKET || t[0] == CLOSE_BRACE
  }

  /** Neither of two texts, each followed by what may follow a value, runs on into the other. */
  ghost predicate Apart(a: Text, b: Text) {
    forall x, y :: Ends(x) && Ends(y) && a + x == b + y ==> a == b
  }

  predicate Starts(a: Text) {
    a != [] && !Ends(a)
  }

  function Tail(parts: seq<Text>): Text {
    if parts == [] then [] else [COMMA] + parts[0] + Tail(parts[1..])
  }

  /** The parts joined by commas. */
  function Join(parts: seq<Text>): Text {
    if parts == [] then [] else parts[0] + Tail(parts[1..])
  }

  ghost predicate AllApart(ps: seq<Text>, qs: seq<Text>) {
    && (forall p :: p in ps ==> Starts(p))
    && (forall q :: q in qs ==> Starts(q))
    && (forall p, q :: p in ps && q in qs ==> Apart(p, q))
  }

  /** A list followed by its closing text, split at its first part. */
  lemma SplitFirst(part: Text, parts: seq<Text>, x: Text)
    requires x != [] && Ends(x)
    ensures Ends(Tail(parts) + x)
    ensures part + Tail(parts) + x == part + (Tail(parts) + x)
    ensures [COMMA] + part + Tail(parts) + x == [COMMA] + (part + (Tail(parts) + x))
  {
  }

  lemma FirstAgrees(p: Text, x: Text, q: Text, y: Text)
    requires Apart(p, q) && Ends(x) && Ends(y) && p + x == q + y
    ensures p == q && x == y
  {
    assert x == (p + x)[|p|..] && y == (q + y)[|q|..];
  }

  lemma {:induction false} TailUnique(ps: seq<Text>, x: Text, qs: seq<Text>, y: Text)
    requires AllApart(ps, qs)
    requires x != [] && y != [] && Ends(x) && Ends(y) && x[0] != COMMA && y[0] != COMMA
    requires Tail(ps) + x == Tail(qs) + y
    ensures ps == qs && x == y
  {
    var t := Tail(ps) + x;
    assert ps == [] ==> t == x;
    assert qs == [] ==> t == y;
    assert ps == [] <==> t[0] != COMMA;
    assert qs == [] <==> t[0] != COMMA;
    if ps != [] {
      SplitFirst(ps[0], ps[1..], x);
      SplitFirst(qs[0], qs[1..], y);
      assert t[1..] == ps[0] + (Tail(ps[1..]) + x) && t[1..] == qs[0] + (Tail(qs[1..]) + y);
      assert ps[0] in ps && qs[0] in qs;
      FirstAgrees(ps[0], Tail(ps[1..]) + x, qs[0], Tail(qs[1..]) + y);
      TailUnique(ps[1..], x, qs[1..], y);
      assert ps == [ps[0]] + ps[1..] && qs == [qs[0]] + qs[1..];
    }
  }

  /** A bracketed list determines its parts and where it ends. */
  lemma JoinUnique(ps: seq<Text>, x: Text, qs: seq<Text>, y: Text)
    requires AllApart(ps, qs)
    requires x != [] && y != [] && Ends(x) && Ends(y) && x[0] != COMMA && y[0] != COMMA
    requires Join(ps) + x == Join(qs) + y
    ensures ps == qs && x == y
  {
    var t := Join(ps) + x;
    assert ps == [] ==> t == x;
    assert qs == [] ==> t == y;
    if ps != [] {
      SplitFirst(ps[0], ps[1..], x);
      assert ps[0] in ps && t[0] == ps[0][0];
    }
    if qs != [] {
      SplitFirst(qs[0], qs[1..], y);
      assert qs[0] in qs && t[0] == qs[0][0];
    }
    if ps != [] && qs != [] {
      FirstAgrees(ps[0], Tail(ps[1..]) + x, qs[0], Tail(qs[1..]) + y);
      TailUnique(ps[1..], x, qs[1..], y);
      assert ps == [ps[0]] + ps[1..] && qs == [qs[0]] + qs[1..];
    }
  }
}
