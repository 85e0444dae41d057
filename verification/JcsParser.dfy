/** A JSON parser after the grammar of RFC 8259, and the proof that it reads canonical text back. */
module JcsParser {
  import opened Wrappers
  import opened JcsText
  import opened Jcs

  /** What reads a number's characters; None where they are no number. */
  type NumberReader<!N> = Text -> Option<N>

  ghost predicate Inverse<N(!new)>(read: NumberReader<N>, num: N -> Text) {
    forall n :: read(num(n)) == Some(n)
  }

  /** The longest run of number characters at the start, and what follows it. */
  function SplitNumber(t: Text): (r: (Text, Text))
    ensures r.0 + r.1 == t
  {
    if t == [] || !NumberChar(t[0]) then ([], t)
    else
      var (more, rest) := SplitNumber(t[1..]);
      ([t[0]] + more, rest)
  }

  function ParseNumber<N>(t: Text, read: NumberReader<N>): (r: Option<(Js<N>, Text)>)
    ensures r.Some? ==> |r.value.1| < |t|
  {
    var (digits, rest) := SplitNumber(t);
    if digits == [] then None
    else
      match read(digits)
      case None => None
      case Some(n) => Some((Number(n), rest))
  }

  /** The white space the grammar allows around values and punctuation. */
  predicate Space(u: Unit) {
    u == 0x20 || u == 0x09 || u == 0x0a || u == 0x0d
  }

  function SkipSpace(t: Text): (r: Text)
    ensures |r| <= |t|
    ensures r == [] || !Space(r[0])
  {
    if t == [] || !Space(t[0]) then t else SkipSpace(t[1..])
  }

  /** A value at the start of the text, after white space, and the text after it. */
  function ParseValue<N>(t: Text, read: NumberReader<N>): (r: Option<(Js<N>, Text)>)
    ensures r.Some? ==> |r.value.1| < |t|
    decreases |t|, 0
  {
    if t == [] then None
    else if Space(t[0]) then ParseValue(t[1..], read)
    else if t[0] == 0x6e then if NULL_TEXT <= t then Some((Null, t[4..])) else None
    else if t[0] == 0x74 then if TRUE_TEXT <= t then Some((Bool(true), t[4..])) else None
    else if t[0] == 0x66 then if FALSE_TEXT <= t then Some((Bool(false), t[5..])) else None
    else if t[0] == QUOTE then
      match ReadString(t[1..])
      case None => None
      case Some((s, rest)) => Some((Str(s), rest))
    else if t[0] == OPEN_BRACKET then
      var inner := SkipSpace(t[1..]);
      if inner != [] && inner[0] == CLOSE_BRACKET then Some((Arr([]), inner[1..]))
      else
        match ParseItems(t[1..], read)
        case None => None
        case Some((items, rest)) => Some((Arr(items), rest))
    else if t[0] == OPEN_BRACE then
      var inner := SkipSpace(t[1..]);
      if inner != [] && inner[0] == CLOSE_BRACE then Some((Obj([]), inner[1..]))
      else
        match ParseMembers(t[1..], read)
        case None => None
        case Some((fields, rest)) => Some((Obj(fields), rest))
    else ParseNumber(t, read)
  }

  /** One or more values separated by commas, up to the closing bracket. */
  function ParseItems<N>(t: Text, read: NumberReader<N>): (r: Option<(seq<Js<N>>, Text)>)
    ensures r.Some? ==> |r.value.1| < |t|
    decreases |t|, 1
  {
    match ParseValue(t, read)
    case None => None
    case Some((v, tail)) =>
      var rest := SkipSpace(tail);
      if rest == [] then None
      else if rest[0] == CLOSE_BRACKET then Some(([v], rest[1..]))
      else if rest[0] != COMMA then None
      else
        match ParseItems(rest[1..], read)
        case None => None
        case Some((items, after)) => Some(([v] + items, after))
  }

  /** A quoted key, a colon and a value. */
  function ParseMember<N>(t: Text, read: NumberReader<N>): (r: Option<(Field<N>, Text)>)
    ensures r.Some? ==> |r.value.1| < |t|
    decreases |t|, 1
  {
    if t == [] then None
    else if Space(t[0]) then ParseMember(t[1..], read)
    else if t[0] != QUOTE then None
    else
      match ReadString(t[1..])
      case None => None
      case Some((key, tail)) =>
        var rest := SkipSpace(tail);
        if rest == [] || rest[0] != COLON then None
        else
          match ParseValue(rest[1..], read)
          case None => None
          case Some((v, after)) => Some((Entry(key, v), after))
  }

  /** One or more members separated by commas, up to the closing brace. */
  function ParseMembers<N>(t: Text, read: NumberReader<N>): (r: Option<(seq<Field<N>>, Text)>)
    ensures r.Some? ==> |r.value.1| < |t|
    decreases |t|, 2
  {
    match ParseMember(t, read)
    case None => None
    case Some((f, tail)) =>
      var rest := SkipSpace(tail);
      if rest == [] then None
      else if rest[0] == CLOSE_BRACE then Some(([f], rest[1..]))
      else if rest[0] != COMMA then None
      else
        match ParseMembers(rest[1..], read)
        case None => None
        case Some((fields, after)) => Some(([f] + fields, after))
  }

  /** A whole text that is one value. */
  function Parse<N>(t: Text, read: NumberReader<N>): Option<Js<N>> {
    match ParseValue(t, read)
    case Some((v, rest)) => if SkipSpace(rest) == [] then Some(v) else None
    case None => None
  }

  // ---- what a parser sees of a value

  /** Undefined items are null, undefined members absent, and keys ascend. */
  function Plain<N>(v: Js<N>): Js<N>
    decreases v, 1
  {
    match v
    case Arr(items) => Arr(PlainItems(items))
    case Obj(fields) => Obj(SortEntries(PlainFields(fields)))
    case _ => v
  }

  function PlainItems<N>(items: seq<Js<N>>): seq<Js<N>>
    decreases items, 0
  {
    if items == [] then []
    else [if items[0].Undefined? then Null else Plain(items[0])] + PlainItems(items[1..])
  }

  function PlainFields<N>(fields: seq<Field<N>>): seq<Field<N>>
    decreases fields, 0
  {
    if fields == [] then []
    else if fields[0].value.Undefined? then PlainFields(fields[1..])
    else [Entry(fields[0].key, Plain(fields[0].value))] + PlainFields(fields[1..])
  }

  // ---- reading back

  /** The text, followed by whatever may follow a value, parses to the value and leaves the rest. */
  ghost predicate Reads<N>(v: Js<N>, t: Text, read: NumberReader<N>) {
    forall x :: Ends(x) ==> ParseValue(t + x, read) == Some((v, x))
  }

  lemma {:induction false} NumberSplits(a: Text, x: Text)
    requires (forall i :: 0 <= i < |a| ==> NumberChar(a[i])) && Ends(x)
    ensures SplitNumber(a + x) == (a, x)
  {
    if a == [] {
      assert a + x == x;
    } else {
      assert (a + x)[0] == a[0] && (a + x)[1..] == a[1..] + x && a == [a[0]] + a[1..];
      NumberSplits(a[1..], x);
    }
  }

  lemma NumberStep<N>(t: Text, read: NumberReader<N>)
    requires t != [] && (0x30 <= t[0] <= 0x39 || t[0] == 0x2d)
    ensures ParseValue(t, read) == ParseNumber(t, read)
  {
  }

  lemma NumberReads<N(!new)>(n: N, num: N -> Text, read: NumberReader<N>)
    requires NumberPrinter(num) && Inverse(read, num)
    ensures Reads(Number(n), num(n), read)
  {
    forall x | Ends(x) ensures ParseValue(num(n) + x, read) == Some((Number(n), x)) {
      NumberSplits(num(n), x);
      assert (num(n) + x)[0] == num(n)[0];
      NumberStep(num(n) + x, read);
    }
  }

  lemma StringReads<N>(s: Text, read: NumberReader<N>)
    ensures Reads(Str(s), Quote(s), read)
  {
    forall x | Ends(x) ensures ParseValue(Quote(s) + x, read) == Some((Js<N>.Str(s), x)) {
      QuotedTail(s, x);
      ReadsQuoted(s, x);
      assert (Quote(s) + x)[0] == QUOTE;
    }
  }

  lemma WordReads<N>(v: Js<N>, word: Text, read: NumberReader<N>)
    requires (v.Null? && word == NULL_TEXT) || (v == Bool(true) && word == TRUE_TEXT)
             || (v == Bool(false) && word == FALSE_TEXT)
    ensures Reads(v, word, read)
  {
    forall x | Ends(x) ensures ParseValue(word + x, read) == Some((v, x)) {
      assert (word + x)[|word|..] == x && word <= word + x;
      assert (word + x)[0] == word[0];
    }
  }

  lemma JoinOne(parts: seq<Text>)
    requires |parts| == 1
    ensures Join(parts) == parts[0]
  {
    assert parts[1..] == [] && parts[0] + [] == parts[0];
  }

  lemma JoinSplits(parts: seq<Text>, x: Text)
    requires |parts| > 1
    ensures Join(parts) + x == parts[0] + ([COMMA] + (Join(parts[1..]) + x))
  {
    Assoc(parts[0], Tail(parts[1..]), x);
    Assoc([COMMA], parts[1], Tail(parts[1..][1..]));
    Assoc([COMMA], Join(parts[1..]), x);
  }

  lemma LastItem<N>(t: Text, v: Js<N>, rest: Text, read: NumberReader<N>)
    requires ParseValue(t, read) == Some((v, rest)) && rest != [] && rest[0] == CLOSE_BRACKET
    ensures ParseItems(t, read) == Some(([v], rest[1..]))
  {
  }

  lemma NextItem<N>(t: Text, v: Js<N>, rest: Text, vs: seq<Js<N>>, after: Text, read: NumberReader<N>)
    requires ParseValue(t, read) == Some((v, rest)) && rest != [] && rest[0] == COMMA
    requires ParseItems(rest[1..], read) == Some((vs, after))
    ensures ParseItems(t, read) == Some(([v] + vs, after))
  {
  }

  lemma ItemBeforeOthers<N>(v: Js<N>, vs: seq<Js<N>>, parts: seq<Text>, end: Text, x: Text, read: NumberReader<N>)
    requires |parts| > 1 && Reads(v, parts[0], read)
    requires ParseItems(Join(parts[1..]) + end, read) == Some((vs, x))
    ensures ParseItems(Join(parts) + end, read) == Some(([v] + vs, x))
  {
    var more := [COMMA] + (Join(parts[1..]) + end);
    JoinSplits(parts, end);
    assert more[1..] == Join(parts[1..]) + end;
    NextItem(parts[0] + more, v, more, vs, x, read);
  }

  lemma OnlyItem<N>(v: Js<N>, part: Text, x: Text, read: NumberReader<N>)
    requires Reads(v, part, read)
    ensures ParseItems(Join([part]) + ([CLOSE_BRACKET] + x), read) == Some(([v], x))
  {
    var end := [CLOSE_BRACKET] + x;
    JoinOne([part]);
    assert end[1..] == x;
    LastItem(part + end, v, end, read);
  }

  lemma {:induction false} ItemsRead<N>(vs: seq<Js<N>>, parts: seq<Text>, x: Text, read: NumberReader<N>)
    requires |vs| == |parts| > 0 && forall i :: 0 <= i < |vs| ==> Reads(vs[i], parts[i], read)
    ensures ParseItems(Join(parts) + ([CLOSE_BRACKET] + x), read) == Some((vs, x))
    decreases |vs|
  {
    var end := [CLOSE_BRACKET] + x;
    if |vs| == 1 {
      OnlyItem(vs[0], parts[0], x, read);
      assert vs == [vs[0]] && parts == [parts[0]];
    } else {
      ItemsRead(vs[1..], parts[1..], x, read);
      ItemBeforeOthers(vs[0], vs[1..], parts, end, x, read);
      assert vs == [vs[0]] + vs[1..];
    }
  }

  lemma MemberReads<N>(f: Field<N>, e: Entry<Text>, x: Text, read: NumberReader<N>)
    requires f.key == e.key && Reads(f.value, e.value, read) && Ends(x)
    ensures ParseMember(Part(e) + x, read) == Some((f, x))
  {
    var after := [COLON] + (e.value + x);
    Assoc(Quote(e.key), [COLON] + e.value, x);
    Assoc([COLON], e.value, x);
    assert Part(e) + x == Quote(e.key) + after;
    QuotedTail(e.key, after);
    ReadsQuoted(e.key, after);
    assert after[1..] == e.value + x;
    assert (Quote(e.key) + after)[0] == QUOTE;
  }

  /** Members and entries go in pairs: the same key, and the entry's text reads as the member's value. */
  ghost predicate Paired<N>(fs: seq<Field<N>>, es: seq<Entry<Text>>, read: NumberReader<N>) {
    |fs| == |es| && forall i :: 0 <= i < |fs| ==> fs[i].key == es[i].key && Reads(fs[i].value, es[i].value, read)
  }

  lemma LastMember<N>(t: Text, f: Field<N>, rest: Text, read: NumberReader<N>)
    requires ParseMember(t, read) == Some((f, rest)) && rest != [] && rest[0] == CLOSE_BRACE
    ensures ParseMembers(t, read) == Some(([f], rest[1..]))
  {
  }

  lemma NextMember<N>(t: Text, f: Field<N>, rest: Text, fs: seq<Field<N>>, after: Text, read: NumberReader<N>)
    requires ParseMember(t, read) == Some((f, rest)) && rest != [] && rest[0] == COMMA
    requires ParseMembers(rest[1..], read) == Some((fs, after))
    ensures ParseMembers(t, read) == Some(([f] + fs, after))
  {
  }

  lemma MemberBeforeOthers<N>(f: Field<N>, e: Entry<Text>, fs: seq<Field<N>>, es: seq<Entry<Text>>, end: Text,
                              x: Text, read: NumberReader<N>)
    requires es != [] && f.key == e.key && Reads(f.value, e.value, read)
    requires ParseMembers(Join(Parts(es)) + end, read) == Some((fs, x))
    ensures ParseMembers(Join(Parts([e] + es)) + end, read) == Some(([f] + fs, x))
  {
    var more := [COMMA] + (Join(Parts(es)) + end);
    assert Parts([e] + es)[1..] == Parts(es);
    JoinSplits(Parts([e] + es), end);
    MemberReads(f, e, more, read);
    assert more[1..] == Join(Parts(es)) + end;
    NextMember(Part(e) + more, f, more, fs, x, read);
  }

  lemma OnlyMember<N>(f: Field<N>, e: Entry<Text>, x: Text, read: NumberReader<N>)
    requires f.key == e.key && Reads(f.value, e.value, read)
    ensures ParseMembers(Join(Parts([e])) + ([CLOSE_BRACE] + x), read) == Some(([f], x))
  {
    var end := [CLOSE_BRACE] + x;
    JoinOne(Parts([e]));
    MemberReads(f, e, end, read);
    assert end[1..] == x;
    LastMember(Part(e) + end, f, end, read);
  }

  lemma PairedTail<N>(fs: seq<Field<N>>, es: seq<Entry<Text>>, read: NumberReader<N>)
    requires Paired(fs, es, read) && fs != []
    ensures fs[0].key == es[0].key && Reads(fs[0].value, es[0].value, read)
    ensures Paired(fs[1..], es[1..], read)
    ensures fs == [fs[0]] + fs[1..] && es == [es[0]] + es[1..]
  {
  }

  lemma {:induction false} MembersRead<N>(fs: seq<Field<N>>, es: seq<Entry<Text>>, x: Text, read: NumberReader<N>)
    requires Paired(fs, es, read) && fs != []
    ensures ParseMembers(Join(Parts(es)) + ([CLOSE_BRACE] + x), read) == Some((fs, x))
    decreases |fs|
  {
    PairedTail(fs, es, read);
    var f, e, fs', es' := fs[0], es[0], fs[1..], es[1..];
    if fs' == [] {
      OnlyMember(f, e, x, read);
      assert fs == [f] && es == [e];
    } else {
      MembersRead(fs', es', x, read);
      MemberBeforeOthers(f, e, fs', es', [CLOSE_BRACE] + x, x, read);
    }
  }

  // ---- sorting keeps the pairs

  lemma {:induction false} InsertPaired<N>(
      f: Field<N>, e: Entry<Text>, fs: seq<Field<N>>, es: seq<Entry<Text>>, read: NumberReader<N>)
    requires Paired(fs, es, read) && f.key == e.key && Reads(f.value, e.value, read)
    ensures Paired(InsertEntry(f, fs), InsertEntry(e, es), read)
  {
    if fs != [] && !Less(f.key, fs[0].key) {
      InsertPaired(f, e, fs[1..], es[1..], read);
    }
  }

  lemma {:induction false} SortPaired<N>(fs: seq<Field<N>>, es: seq<Entry<Text>>, read: NumberReader<N>)
    requires Paired(fs, es, read)
    ensures Paired(SortEntries(fs), SortEntries(es), read)
  {
    if fs != [] {
      SortPaired(fs[1..], es[1..], read);
      InsertPaired(fs[0], es[0], SortEntries(fs[1..]), SortEntries(es[1..]), read);
    }
  }

  // ---- the round trip

  lemma EmptyReads<N>(v: Js<N>, open: Unit, close: Unit, read: NumberReader<N>)
    requires (v == Arr([]) && open == OPEN_BRACKET && close == CLOSE_BRACKET)
             || (v == Obj([]) && open == OPEN_BRACE && close == CLOSE_BRACE)
    ensures Reads(v, [open] + [] + [close], read)
  {
    forall x | Ends(x) ensures ParseValue([open] + [] + [close] + x, read) == Some((v, x)) {
      var t := [open] + [] + [close] + x;
      assert t[0] == open && t[1] == close && t[2..] == x;
    }
  }

  /** The text starts as a value does, without white space. */
  predicate Begins(t: Text) {
    Starts(t) && !Space(t[0])
  }

  lemma CanonicalBegins<N(!new)>(v: Js<N>, num: N -> Text)
    requires NumberPrinter(num) && Canonicalize(v, num).Some?
    ensures Begins(Canonicalize(v, num).value)
  {
    FirstUnit(v, num);
  }

  lemma ArrayReads<N>(vs: seq<Js<N>>, parts: seq<Text>, read: NumberReader<N>)
    requires |vs| == |parts| && forall i :: 0 <= i < |vs| ==> Begins(parts[i]) && Reads(vs[i], parts[i], read)
    ensures Reads(Arr(vs), [OPEN_BRACKET] + Join(parts) + [CLOSE_BRACKET], read)
  {
    if vs == [] {
      EmptyReads(Js<N>.Arr([]), OPEN_BRACKET, CLOSE_BRACKET, read);
    } else {
      forall x | Ends(x)
        ensures ParseValue([OPEN_BRACKET] + Join(parts) + [CLOSE_BRACKET] + x, read) == Some((Arr(vs), x))
      {
        var t := [OPEN_BRACKET] + Join(parts) + [CLOSE_BRACKET] + x;
        BracketedTail(OPEN_BRACKET, Join(parts), CLOSE_BRACKET, x);
        ItemsRead(vs, parts, x, read);
        assert t[0] == OPEN_BRACKET && t[1..][0] == Join(parts)[0] == parts[0][0];
      }
    }
  }

  lemma ObjectReads<N>(fs: seq<Field<N>>, es: seq<Entry<Text>>, read: NumberReader<N>)
    requires Paired(fs, es, read)
    ensures Reads(Obj(fs), [OPEN_BRACE] + Join(Parts(es)) + [CLOSE_BRACE], read)
  {
    if fs == [] {
      EmptyReads(Js<N>.Obj([]), OPEN_BRACE, CLOSE_BRACE, read);
    } else {
      forall x | Ends(x)
        ensures ParseValue([OPEN_BRACE] + Join(Parts(es)) + [CLOSE_BRACE] + x, read) == Some((Obj(fs), x))
      {
        var t := [OPEN_BRACE] + Join(Parts(es)) + [CLOSE_BRACE] + x;
        BracketedTail(OPEN_BRACE, Join(Parts(es)), CLOSE_BRACE, x);
        MembersRead(fs, es, x, read);
        assert t[0] == OPEN_BRACE && t[1..][0] == Join(Parts(es))[0] == Part(es[0])[0] == QUOTE;
      }
    }
  }

  lemma {:induction false} ItemTextsRead<N(!new)>(items: seq<Js<N>>, num: N -> Text, read: NumberReader<N>)
    requires NumberPrinter(num) && Inverse(read, num) && ItemTexts(items, num).Some?
    ensures var parts := ItemTexts(items, num).value;
      |PlainItems(items)| == |parts|
      && forall i :: 0 <= i < |parts| ==> Begins(parts[i]) && Reads(PlainItems(items)[i], parts[i], read)
    decreases items, 0
  {
    if items != [] {
      ItemTextsRead(items[1..], num, read);
      if items[0].Undefined? {
        WordReads(Js<N>.Null, NULL_TEXT, read);
      } else {
        CanonicalReads(items[0], num, read);
        CanonicalBegins(items[0], num);
      }
    }
  }

  lemma {:induction false} EntriesPaired<N(!new)>(fields: seq<Field<N>>, num: N -> Text, read: NumberReader<N>)
    requires NumberPrinter(num) && Inverse(read, num) && FieldEntries(fields, num).Some?
    ensures Paired(PlainFields(fields), FieldEntries(fields, num).value, read)
    decreases fields, 0
  {
    if fields != [] {
      EntriesPaired(fields[1..], num, read);
      if !fields[0].value.Undefined? {
        CanonicalReads(fields[0].value, num, read);
      }
    }
  }

  /** The canonical text of any value, followed by any delimiter, parses back to its plain form. */
  lemma {:induction false} CanonicalReads<N(!new)>(v: Js<N>, num: N -> Text, read: NumberReader<N>)
    requires NumberPrinter(num) && Inverse(read, num) && Canonicalize(v, num).Some?
    ensures Reads(Plain(v), Canonicalize(v, num).value, read)
    decreases v, 1
  {
    match v
    case Null => WordReads(v, NULL_TEXT, read);
    case Bool(b) => WordReads(v, if b then TRUE_TEXT else FALSE_TEXT, read);
    case Number(n) => NumberReads(n, num, read);
    case Str(s) => StringReads(s, read);
    case Arr(items) =>
      ItemTextsRead(items, num, read);
      ArrayReads(PlainItems(items), ItemTexts(items, num).value, read);
    case Obj(fields) =>
      EntriesPaired(fields, num, read);
      SortPaired(PlainFields(fields), FieldEntries(fields, num).value, read);
      ObjectReads(SortEntries(PlainFields(fields)), SortEntries(FieldEntries(fields, num).value), read);
  }

  /** Parsing a canonical text gives the value with undefined items null, undefined members gone and keys sorted. */
  lemma ParseInvertsCanonicalize<N(!new)>(v: Js<N>, num: N -> Text, read: NumberReader<N>)
    requires NumberPrinter(num) && Inverse(read, num) && Canonicalize(v, num).Some?
    ensures Parse(Canonicalize(v, num).value, read) == Some(Plain(v))
  {
    var t := Canonicalize(v, num).value;
    CanonicalReads(v, num, read);
    assert Ends([]) && t + [] == t;
    assert ParseValue(t + [], read) == Some((Plain(v), []));
  }

  // ---- the plain form is the same value

  lemma {:induction false} PlainItemsIndex<N>(items: seq<Js<N>>)
    ensures |PlainItems(items)| == |items|
    ensures forall i :: 0 <= i < |items| ==>
      PlainItems(items)[i] == if items[i].Undefined? then Null else Plain(items[i])
  {
    if items != [] {
      PlainItemsIndex(items[1..]);
    }
  }

  lemma {:induction false} PlainFieldsMember<N>(fields: seq<Field<N>>, f: Field<N>)
    ensures f in PlainFields(fields) <==> exists i :: PlainFrom(fields, i, f)
  {
    if fields != [] {
      PlainFieldsMember(fields[1..], f);
      assert forall i :: 0 <= i < |fields| - 1 ==> fields[1..][i] == fields[i + 1];
      if i: nat :| PlainFrom(fields[1..], i, f) {
        assert PlainFrom(fields, i + 1, f);
      }
      if i: nat :| PlainFrom(fields, i, f) {
        assert i == 0 || PlainFrom(fields[1..], i - 1, f);
      }
      if !fields[0].value.Undefined? && f == Entry(fields[0].key, Plain(fields[0].value)) {
        assert PlainFrom(fields, 0, f);
      }
    }
  }

  /** Member i, which is present, has f as its plain form. */
  ghost predicate PlainFrom<N>(fields: seq<Field<N>>, i: nat, f: Field<N>) {
    i < |fields| && !fields[i].value.Undefined? && f == Entry(fields[i].key, Plain(fields[i].value))
  }

  /** Parsing gives back the same JSON value, in the sense in which canonical text identifies values. */
  lemma {:induction false} PlainIsSame<N>(v: Js<N>)
    requires IsJson(v)
    ensures Same(v, Plain(v))
    decreases v
  {
    match v
    case Arr(items) =>
      PlainItemsIndex(items);
      forall i | 0 <= i < |items| && !items[i].Undefined? && !items[i].Null? ensures Same(items[i], Plain(items[i])) {
        PlainIsSame(items[i]);
      }
    case Obj(fields) =>
      forall f | f in fields && !f.value.Undefined? ensures Same(f.value, Plain(f.value)) {
        PlainIsSame(f.value);
      }
      PlainObjectIsSame(fields);
    case _ =>
  }

  lemma PlainObjectHas<N>(fields: seq<Field<N>>, i: nat) returns (j: nat)
    requires i < |fields| && !fields[i].value.Undefined?
    ensures var gs := SortEntries(PlainFields(fields));
      j < |gs| && gs[j] == Entry(fields[i].key, Plain(fields[i].value))
  {
    var f := Entry(fields[i].key, Plain(fields[i].value));
    assert PlainFrom(fields, i, f);
    PlainFieldsMember(fields, f);
    SortEntriesMembers(PlainFields(fields), f);
    j :| 0 <= j < |SortEntries(PlainFields(fields))| && SortEntries(PlainFields(fields))[j] == f;
  }

  lemma PlainObjectFrom<N>(fields: seq<Field<N>>, j: nat) returns (i: nat)
    requires j < |SortEntries(PlainFields(fields))|
    ensures PlainFrom(fields, i, SortEntries(PlainFields(fields))[j])
  {
    var g := SortEntries(PlainFields(fields))[j];
    SortEntriesMembers(PlainFields(fields), g);
    PlainFieldsMember(fields, g);
    i :| PlainFrom(fields, i, g);
  }

  /** Some member of the other object has the same key and the same value. */
  ghost predicate MatchedIn<N>(f: Field<N>, gs: seq<Field<N>>) {
    exists j :: 0 <= j < |gs| && gs[j].key == f.key && Same(f.value, gs[j].value)
  }

  ghost predicate MatchedFrom<N>(fs: seq<Field<N>>, g: Field<N>) {
    exists i :: 0 <= i < |fs| && fs[i].key == g.key && Same(fs[i].value, g.value)
  }

  lemma MatchingObjectsSame<N>(fs: seq<Field<N>>, gs: seq<Field<N>>)
    requires forall f :: f in fs && !f.value.Undefined? ==> MatchedIn(f, gs)
    requires forall g :: g in gs && !g.value.Undefined? ==> MatchedFrom(fs, g)
    ensures Same(Obj(fs), Obj(gs))
  {
    forall i | 0 <= i < |fs| && !fs[i].value.Undefined?
      ensures exists j :: 0 <= j < |gs| && gs[j].key == fs[i].key && Same(fs[i].value, gs[j].value)
    {
      assert MatchedIn(fs[i], gs);
    }
    forall j | 0 <= j < |gs| && !gs[j].value.Undefined?
      ensures exists i :: 0 <= i < |fs| && fs[i].key == gs[j].key && Same(fs[i].value, gs[j].value)
    {
      assert MatchedFrom(fs, gs[j]);
    }
  }

  lemma PlainObjectIsSame<N>(fields: seq<Field<N>>)
    requires forall f :: f in fields && !f.value.Undefined? ==> Same(f.value, Plain(f.value))
    ensures Same(Obj(fields), Obj(SortEntries(PlainFields(fields))))
  {
    var gs := SortEntries(PlainFields(fields));
    forall f | f in fields && !f.value.Undefined? ensures MatchedIn(f, gs) {
      var i :| 0 <= i < |fields| && fields[i] == f;
      var j := PlainObjectHas(fields, i);
      assert gs[j].key == f.key && Same(f.value, gs[j].value);
    }
    forall g | g in gs ensures MatchedFrom(fields, g) {
      var j :| 0 <= j < |gs| && gs[j] == g;
      var i := PlainObjectFrom(fields, j);
      assert fields[i] in fields;
    }
    MatchingObjectsSame(fields, gs);
  }
}
