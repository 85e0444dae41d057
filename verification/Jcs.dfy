/** RFC 8785 canonical JSON and what its text determines about the value. */
module Jcs {
  import opened Wrappers
  import opened JcsText

  /**
   * A JavaScript value as the canonicalizer sees it. Own keys come in insertion order. Number
   * holds a finite numeric value, for which -0 and 0 are the same; Unsupported is any value that
   * has no JSON form, such as a function. Hooked says how objects with a toJSON method enter.
   */
  datatype Js<N> =
    | Undefined
    | Null
    | Bool(b: bool)
    | Number(n: N)
    | NonFinite
    | Str(s: Text)
    | Arr(items: seq<Js<N>>)
    | Obj(fields: seq<Entry<Js<N>>>)
    | Unsupported

  type Field<N> = Entry<Js<N>>

  const NULL_TEXT: Text := [0x6e, 0x75, 0x6c, 0x6c]
  const TRUE_TEXT: Text := [0x74, 0x72, 0x75, 0x65]
  const FALSE_TEXT: Text := [0x66, 0x61, 0x6c, 0x73, 0x65]

  // ---- number printing, as far as it matters here

  predicate NumberChar(u: Unit) {
    0x30 <= u <= 0x39 || u == 0x2d || u == 0x2b || u == 0x2e || u == 0x65 || u == 0x45
  }

  ghost predicate NumberText(t: Text) {
    t != [] && (0x30 <= t[0] <= 0x39 || t[0] == 0x2d) && forall i :: 0 <= i < |t| ==> NumberChar(t[i])
  }

  /** Printing gives number characters only and tells different numbers apart. */
  ghost predicate NumberPrinter<N(!new)>(num: N -> Text) {
    && (forall n :: NumberText(num(n)))
    && (forall m, n :: num(m) == num(n) ==> m == n)
  }

  // ---- the canonicalizer; None where it throws

  function Canonicalize<N>(v: Js<N>, num: N -> Text): Option<Text>
    decreases v, 1
  {
    match v
    case Undefined => None
    case Null => Some(NULL_TEXT)
    case Bool(b) => Some(if b then TRUE_TEXT else FALSE_TEXT)
    case Number(n) => Some(num(n))
    case NonFinite => None
    case Str(s) => Some(Quote(s))
    case Arr(items) =>
      (match ItemTexts(items, num)
       case None => None
       case Some(parts) => Some([OPEN_BRACKET] + Join(parts) + [CLOSE_BRACKET]))
    case Obj(fields) =>
      (match FieldEntries(fields, num)
       case None => None
       case Some(entries) => Some([OPEN_BRACE] + Join(Parts(SortEntries(entries))) + [CLOSE_BRACE]))
    case Unsupported => None
  }

  /** An undefined array entry prints as null. */
  function ItemText<N>(v: Js<N>, num: N -> Text): Option<Text>
    decreases v, 2
  {
    if v.Undefined? then Some(NULL_TEXT) else Canonicalize(v, num)
  }

  /** What an object with a toJSON method counts as: what the method returns, but never as absent. */
  function Hooked<N>(result: Js<N>): Js<N> {
    if result.Undefined? then Unsupported else result
  }

  /** Such an object prints as what its method returns, or throws where that throws, wherever it stands. */
  lemma HookIsNeverSkipped<N>(result: Js<N>, key: Text, num: N -> Text)
    ensures Canonicalize(Hooked(result), num) == ItemText(Hooked(result), num) == Canonicalize(result, num)
    ensures FieldEntries([Entry(key, Hooked(result))], num) ==
      match Canonicalize(result, num) case None => None case Some(t) => Some([Entry(key, t)])
  {
    var fields := [Entry(key, Hooked(result))];
    assert fields[1..] == [] && fields[0].value == Hooked(result);
    assert FieldEntries(fields[1..], num) == Some([]);
    assert forall e: Entry<Text> :: [e] + [] == [e];
  }

  function ItemTexts<N>(items: seq<Js<N>>, num: N -> Text): Option<seq<Text>>
    decreases items, 0
  {
    if items == [] then Some([])
    else
      match (ItemText(items[0], num), ItemTexts(items[1..], num))
      case (Some(t), Some(rest)) => Some([t] + rest)
      case _ => None
  }

  /** The entries of an object in insertion order; undefined ones are skipped. */
  function FieldEntries<N>(fields: seq<Field<N>>, num: N -> Text): Option<seq<Entry<Text>>>
    decreases fields, 0
  {
    if fields == [] then Some([])
    else if fields[0].value.Undefined? then FieldEntries(fields[1..], num)
    else
      match (Canonicalize(fields[0].value, num), FieldEntries(fields[1..], num))
      case (Some(t), Some(rest)) => Some([Entry(fields[0].key, t)] + rest)
      case _ => None
  }

  function Part(e: Entry<Text>): Text { Quote(e.key) + ([COLON] + e.value) }

  function Parts(es: seq<Entry<Text>>): seq<Text> {
    seq(|es|, i requires 0 <= i < |es| => Part(es[i]))
  }

  // ---- the reference notion of sameness

  ghost predicate KeysUnique<N>(fields: seq<Field<N>>) {
    forall i, j :: 0 <= i < j < |fields| ==> fields[i].key != fields[j].key
  }

  /** Own keys of every object are unique, as they are in JavaScript. */
  ghost predicate WellFormed<N>(v: Js<N>)
    decreases v
  {
    match v
    case Arr(items) => forall i :: 0 <= i < |items| ==> WellFormed(items[i])
    case Obj(fields) => KeysUnique(fields) && forall i :: 0 <= i < |fields| ==> WellFormed(fields[i].value)
    case _ => true
  }

  /** The same JSON value, objects being unordered and undefined members absent. */
  ghost predicate Same<N>(v: Js<N>, w: Js<N>)
    decreases v
  {
    match (v, w)
    case (Null, Null) => true
    case (Bool(a), Bool(b)) => a == b
    case (Number(m), Number(n)) => m == n
    case (Str(s), Str(t)) => s == t
    case (Arr(xs), Arr(ys)) =>
      |xs| == |ys| && forall i :: 0 <= i < |xs| ==>
        if xs[i].Undefined? || xs[i].Null? then ys[i].Undefined? || ys[i].Null? else Same(xs[i], ys[i])
    case (Obj(fs), Obj(gs)) =>
      && (forall i :: 0 <= i < |fs| && !fs[i].value.Undefined? ==>
            exists j :: 0 <= j < |gs| && gs[j].key == fs[i].key && Same(fs[i].value, gs[j].value))
      && (forall j :: 0 <= j < |gs| && !gs[j].value.Undefined? ==>
            exists i :: 0 <= i < |fs| && fs[i].key == gs[j].key && Same(fs[i].value, gs[j].value))
    case _ => false
  }

  // ---- what the lists of texts hold

  lemma {:induction false} ItemTextsIndex<N>(items: seq<Js<N>>, num: N -> Text)
    ensures ItemTexts(items, num).Some? ==>
      |ItemTexts(items, num).value| == |items|
      && forall i :: 0 <= i < |items| ==> ItemText(items[i], num) == Some(ItemTexts(items, num).value[i])
    ensures ItemTexts(items, num).None? ==> exists i :: 0 <= i < |items| && ItemText(items[i], num).None?
  {
    if items != [] {
      ItemTextsIndex(items[1..], num);
      if ItemText(items[0], num).Some? && ItemTexts(items[1..], num).None? {
        var i :| 0 <= i < |items| - 1 && ItemText(items[1..][i], num).None?;
        assert ItemText(items[i + 1], num).None?;
      }
    }
  }

  /** Some member of the object prints as the entry. */
  ghost predicate Prints<N>(fields: seq<Field<N>>, num: N -> Text, e: Entry<Text>, i: nat) {
    i < |fields| && !fields[i].value.Undefined? && fields[i].key == e.key
    && Canonicalize(fields[i].value, num) == Some(e.value)
  }

  lemma {:induction false} EntryHasField<N>(fields: seq<Field<N>>, num: N -> Text, e: Entry<Text>) returns (i: nat)
    requires FieldEntries(fields, num).Some? && e in FieldEntries(fields, num).value
    ensures Prints(fields, num, e, i)
  {
    if !fields[0].value.Undefined? && e == Entry(fields[0].key, Canonicalize(fields[0].value, num).value) {
      i := 0;
    } else {
      i := EntryHasField(fields[1..], num, e);
      i := i + 1;
    }
  }

  lemma {:induction false} FieldHasEntry<N>(fields: seq<Field<N>>, num: N -> Text, i: nat)
    requires FieldEntries(fields, num).Some? && i < |fields| && !fields[i].value.Undefined?
    ensures Canonicalize(fields[i].value, num).Some?
    ensures Entry(fields[i].key, Canonicalize(fields[i].value, num).value) in FieldEntries(fields, num).value
  {
    if i > 0 {
      FieldHasEntry(fields[1..], num, i - 1);
    }
  }

  lemma {:induction false} EntriesDistinct<N>(fields: seq<Field<N>>, num: N -> Text)
    requires FieldEntries(fields, num).Some? && KeysUnique(fields)
    ensures KeysDistinct(FieldEntries(fields, num).value)
  {
    if fields != [] {
      EntriesDistinct(fields[1..], num);
      if !fields[0].value.Undefined? {
        var rest := FieldEntries(fields[1..], num).value;
        forall e | e in rest ensures e.key != fields[0].key {
          var i := EntryHasField(fields[1..], num, e);
          assert fields[1..][i] == fields[i + 1];
        }
      }
    }
  }

  lemma {:induction false} FieldEntriesExist<N>(fields: seq<Field<N>>, num: N -> Text)
    requires forall i :: 0 <= i < |fields| && !fields[i].value.Undefined? ==> Canonicalize(fields[i].value, num).Some?
    ensures FieldEntries(fields, num).Some?
  {
    if fields != [] {
      FieldEntriesExist(fields[1..], num);
    }
  }

  // ---- texts never run into each other

  function KindOf<N>(v: Js<N>): nat {
    match v
    case Null => 0
    case Bool(b) => if b then 1 else 2
    case Number(_) => 3
    case Str(_) => 4
    case Arr(_) => 5
    case _ => 6
  }

  function KindOfUnit(u: Unit): nat {
    if u == 0x6e then 0
    else if u == 0x74 then 1
    else if u == 0x66 then 2
    else if u == QUOTE then 4
    else if u == OPEN_BRACKET then 5
    else if u == OPEN_BRACE then 6
    else 3
  }

  /** The first unit of a value's text tells what kind of value it is. */
  lemma FirstUnit<N(!new)>(v: Js<N>, num: N -> Text)
    requires NumberPrinter(num) && Canonicalize(v, num).Some?
    ensures var t := Canonicalize(v, num).value;
      Starts(t) && KindOfUnit(t[0]) == KindOf(v)
  {
  }

  lemma NumbersApart(a: Text, b: Text)
    requires NumberText(a) && NumberText(b)
    ensures Apart(a, b)
  {
    forall x, y | Ends(x) && Ends(y) && a + x == b + y ensures a == b {
      NumberEnds(a, x);
      NumberEnds(b, y);
      assert |a| == |b|;
      assert a == (a + x)[..|a|] && b == (b + y)[..|b|];
    }
  }

  /** The number's characters run exactly up to its end. */
  lemma NumberEnds(a: Text, x: Text)
    requires NumberText(a) && Ends(x)
    ensures forall i :: 0 <= i < |a| ==> NumberChar((a + x)[i])
    ensures x != [] ==> !NumberChar((a + x)[|a|])
  {
  }

  lemma DifferentFirstApart(a: Text, b: Text)
    requires a != [] && b != [] && a[0] != b[0]
    ensures Apart(a, b)
  {
    forall x, y | Ends(x) && Ends(y) ensures a + x != b + y {
      assert (a + x)[0] == a[0];
      assert (b + y)[0] == b[0];
    }
  }

  lemma QuotesApart(s: Text, t: Text)
    ensures Apart(Quote(s), Quote(t))
  {
    forall x, y | Ends(x) && Ends(y) && Quote(s) + x == Quote(t) + y ensures Quote(s) == Quote(t) {
      QuoteUnique(s, x, t, y);
    }
  }

  lemma BracketedApart(open: Unit, ps: seq<Text>, qs: seq<Text>, close: Unit)
    requires AllApart(ps, qs) && (close == CLOSE_BRACKET || close == CLOSE_BRACE)
    ensures Apart([open] + Join(ps) + [close], [open] + Join(qs) + [close])
  {
    forall x, y | Ends(x) && Ends(y) && [open] + Join(ps) + [close] + x == [open] + Join(qs) + [close] + y
      ensures [open] + Join(ps) + [close] == [open] + Join(qs) + [close]
    {
      BracketedUnique(open, ps, x, qs, y, close);
    }
  }

  lemma BracketedUnique(open: Unit, ps: seq<Text>, x: Text, qs: seq<Text>, y: Text, close: Unit)
    requires AllApart(ps, qs) && (close == CLOSE_BRACKET || close == CLOSE_BRACE)
    requires [open] + Join(ps) + [close] + x == [open] + Join(qs) + [close] + y
    ensures ps == qs && x == y
  {
    BracketedTail(open, Join(ps), close, x);
    BracketedTail(open, Join(qs), close, y);
    JoinUnique(ps, [close] + x, qs, [close] + y);
    assert x == ([close] + x)[1..] && y == ([close] + y)[1..];
  }

  lemma BracketedTail(open: Unit, body: Text, close: Unit, x: Text)
    ensures ([open] + body + [close] + x)[1..] == body + ([close] + x)
  {
  }

  lemma PartsApart(e: Entry<Text>, f: Entry<Text>)
    requires Apart(e.value, f.value)
    ensures Apart(Part(e), Part(f))
    ensures Starts(Part(e))
  {
    forall x, y | Ends(x) && Ends(y) && Part(e) + x == Part(f) + y ensures Part(e) == Part(f) {
      PartUnique(e, x, f, y);
    }
  }

  lemma PartUnique(e: Entry<Text>, x: Text, f: Entry<Text>, y: Text)
    requires Apart(e.value, f.value) && Ends(x) && Ends(y) && Part(e) + x == Part(f) + y
    ensures e == f
  {
    Assoc(Quote(e.key), [COLON] + e.value, x);
    Assoc(Quote(f.key), [COLON] + f.value, y);
    Assoc([COLON], e.value, x);
    Assoc([COLON], f.value, y);
    QuoteUnique(e.key, [COLON] + (e.value + x), f.key, [COLON] + (f.value + y));
    assert ([COLON] + (e.value + x))[1..] == e.value + x;
    assert ([COLON] + (f.value + y))[1..] == f.value + y;
  }

  /** Unique readability: no value's text, followed by what may follow it, reads as another's. */
  lemma {:induction false} TextsApart<N(!new)>(v: Js<N>, w: Js<N>, num: N -> Text)
    requires NumberPrinter(num) && Canonicalize(v, num).Some? && Canonicalize(w, num).Some?
    ensures Apart(Canonicalize(v, num).value, Canonicalize(w, num).value)
    decreases v, 1
  {
    var a, b := Canonicalize(v, num).value, Canonicalize(w, num).value;
    FirstUnit(v, num);
    FirstUnit(w, num);
    if KindOf(v) != KindOf(w) {
      DifferentFirstApart(a, b);
    } else {
      match v
      case Number(_) => NumbersApart(a, b);
      case Str(s) => QuotesApart(s, w.s);
      case Arr(items) =>
        ItemsApart(items, w.items, num);
        BracketedApart(OPEN_BRACKET, ItemTexts(items, num).value, ItemTexts(w.items, num).value, CLOSE_BRACKET);
      case Obj(fields) =>
        EntriesApart(fields, w.fields, num);
        BracketedApart(OPEN_BRACE, Parts(SortEntries(FieldEntries(fields, num).value)),
                       Parts(SortEntries(FieldEntries(w.fields, num).value)), CLOSE_BRACE);
      case _ =>
    }
  }

  lemma {:induction false} ItemsApart<N(!new)>(xs: seq<Js<N>>, ys: seq<Js<N>>, num: N -> Text)
    requires NumberPrinter(num) && ItemTexts(xs, num).Some? && ItemTexts(ys, num).Some?
    ensures AllApart(ItemTexts(xs, num).value, ItemTexts(ys, num).value)
    decreases xs, 0
  {
    var ps, qs := ItemTexts(xs, num).value, ItemTexts(ys, num).value;
    ItemTextsIndex(xs, num);
    ItemTextsIndex(ys, num);
    forall i | 0 <= i < |xs| ensures Starts(ps[i]) {
      if !xs[i].Undefined? { FirstUnit(xs[i], num); }
    }
    forall j | 0 <= j < |ys| ensures Starts(qs[j]) {
      if !ys[j].Undefined? { FirstUnit(ys[j], num); }
    }
    forall i, j | 0 <= i < |xs| && 0 <= j < |ys| ensures Apart(ps[i], qs[j]) {
      ItemApart(xs[i], ys[j], num);
    }
  }

  lemma {:induction false} ItemApart<N(!new)>(v: Js<N>, w: Js<N>, num: N -> Text)
    requires NumberPrinter(num) && ItemText(v, num).Some? && ItemText(w, num).Some?
    ensures Apart(ItemText(v, num).value, ItemText(w, num).value)
    decreases v, 2
  {
    if v.Undefined? || w.Undefined? {
      NullApart(v, w, num);
    } else {
      TextsApart(v, w, num);
    }
  }

  lemma NullApart<N(!new)>(v: Js<N>, w: Js<N>, num: N -> Text)
    requires NumberPrinter(num) && ItemText(v, num).Some? && ItemText(w, num).Some?
    requires v.Undefined? || w.Undefined?
    ensures Apart(ItemText(v, num).value, ItemText(w, num).value)
  {
    var a, b := ItemText(v, num).value, ItemText(w, num).value;
    if !v.Undefined? { FirstUnit(v, num); }
    if !w.Undefined? { FirstUnit(w, num); }
    if a[0] != b[0] {
      DifferentFirstApart(a, b);
    }
  }

  lemma {:induction false} EntriesApart<N(!new)>(fs: seq<Field<N>>, gs: seq<Field<N>>, num: N -> Text)
    requires NumberPrinter(num) && FieldEntries(fs, num).Some? && FieldEntries(gs, num).Some?
    ensures AllApart(Parts(SortEntries(FieldEntries(fs, num).value)), Parts(SortEntries(FieldEntries(gs, num).value)))
    decreases fs, 0
  {
    var es, ds := FieldEntries(fs, num).value, FieldEntries(gs, num).value;
    forall e, d | e in es && d in ds ensures Apart(e.value, d.value) {
      var i := EntryHasField(fs, num, e);
      var j := EntryHasField(gs, num, d);
      TextsApart(fs[i].value, gs[j].value, num);
    }
    SortedPartsApart(es, ds);
  }

  lemma SortedPartApart(es: seq<Entry<Text>>, i: nat, ds: seq<Entry<Text>>, j: nat)
    requires forall e, d :: e in es && d in ds ==> Apart(e.value, d.value)
    requires i < |SortEntries(es)| && j < |SortEntries(ds)|
    ensures Apart(Part(SortEntries(es)[i]), Part(SortEntries(ds)[j]))
  {
    var a, b := SortEntries(es)[i], SortEntries(ds)[j];
    SortEntriesMembers(es, a);
    SortEntriesMembers(ds, b);
    PartsApart(a, b);
  }

  lemma PartStarts(e: Entry<Text>)
    ensures Starts(Part(e))
  {
    assert Part(e)[0] == QUOTE;
  }

  lemma SortedPartsApart(es: seq<Entry<Text>>, ds: seq<Entry<Text>>)
    requires forall e, d :: e in es && d in ds ==> Apart(e.value, d.value)
    ensures AllApart(Parts(SortEntries(es)), Parts(SortEntries(ds)))
  {
    var a, b := SortEntries(es), SortEntries(ds);
    forall i, j | 0 <= i < |a| && 0 <= j < |b| ensures Apart(Part(a[i]), Part(b[j])) {
      SortedPartApart(es, i, ds, j);
    }
    forall i | 0 <= i < |a| ensures Starts(Part(a[i])) {
      PartStarts(a[i]);
    }
    forall j | 0 <= j < |b| ensures Starts(Part(b[j])) {
      PartStarts(b[j]);
    }
  }

  // ---- equal text means the same value, and back

  lemma {:induction false} SameTextIsSame<N(!new)>(v: Js<N>, w: Js<N>, num: N -> Text)
    requires NumberPrinter(num) && Canonicalize(v, num).Some? && Canonicalize(v, num) == Canonicalize(w, num)
    ensures Same(v, w)
    decreases v, 1
  {
    FirstUnit(v, num);
    FirstUnit(w, num);
    match v
    case Str(s) => QuoteUnique(s, [], w.s, []);
    case Arr(xs) => SameTextItems(xs, w.items, num);
    case Obj(fs) => SameTextMembers(fs, w.fields, num);
    case _ =>
  }

  lemma {:induction false} SameTextItems<N(!new)>(xs: seq<Js<N>>, ys: seq<Js<N>>, num: N -> Text)
    requires NumberPrinter(num) && Canonicalize(Arr(xs), num).Some?
    requires Canonicalize(Arr(xs), num) == Canonicalize(Arr(ys), num)
    ensures Same(Arr(xs), Arr(ys))
    decreases xs, 0
  {
    ItemsApart(xs, ys, num);
    BracketedUnique(OPEN_BRACKET, ItemTexts(xs, num).value, [], ItemTexts(ys, num).value, [], CLOSE_BRACKET);
    ItemTextsIndex(xs, num);
    ItemTextsIndex(ys, num);
    forall i | 0 <= i < |xs| && !xs[i].Undefined? && !xs[i].Null? ensures Same(xs[i], ys[i]) {
      assert ItemText(xs[i], num) == ItemText(ys[i], num);
      FirstUnit(xs[i], num);
      SameTextIsSame(xs[i], ys[i], num);
    }
    forall i | 0 <= i < |xs| && (xs[i].Undefined? || xs[i].Null?) ensures ys[i].Undefined? || ys[i].Null? {
      assert ItemText(xs[i], num) == ItemText(ys[i], num);
      if !ys[i].Undefined? { FirstUnit(ys[i], num); }
    }
  }

  lemma {:induction false} SameTextMembers<N(!new)>(fs: seq<Field<N>>, gs: seq<Field<N>>, num: N -> Text)
    requires NumberPrinter(num) && Canonicalize(Obj(fs), num).Some?
    requires Canonicalize(Obj(fs), num) == Canonicalize(Obj(gs), num)
    ensures Same(Obj(fs), Obj(gs))
    decreases fs, 0
  {
    SameEntries(fs, gs, num);
    forall i | 0 <= i < |fs| && !fs[i].value.Undefined?
      ensures exists j :: 0 <= j < |gs| && gs[j].key == fs[i].key && Same(fs[i].value, gs[j].value)
    {
      FieldHasEntry(fs, num, i);
      var j := EntryHasField(gs, num, Entry(fs[i].key, Canonicalize(fs[i].value, num).value));
      SameTextIsSame(fs[i].value, gs[j].value, num);
    }
    forall j | 0 <= j < |gs| && !gs[j].value.Undefined?
      ensures exists i :: 0 <= i < |fs| && fs[i].key == gs[j].key && Same(fs[i].value, gs[j].value)
    {
      FieldHasEntry(gs, num, j);
      var i := EntryHasField(fs, num, Entry(gs[j].key, Canonicalize(gs[j].value, num).value));
      SameTextIsSame(fs[i].value, gs[j].value, num);
    }
  }

  /** Objects with the same text have the same entries, whatever order their keys were added in. */
  lemma SameEntries<N(!new)>(fs: seq<Field<N>>, gs: seq<Field<N>>, num: N -> Text)
    requires NumberPrinter(num) && Canonicalize(Obj(fs), num).Some?
    requires Canonicalize(Obj(fs), num) == Canonicalize(Obj(gs), num)
    ensures forall e :: e in FieldEntries(fs, num).value <==> e in FieldEntries(gs, num).value
  {
    var es, ds := FieldEntries(fs, num).value, FieldEntries(gs, num).value;
    EntriesApart(fs, gs, num);
    BracketedUnique(OPEN_BRACE, Parts(SortEntries(es)), [], Parts(SortEntries(ds)), [], CLOSE_BRACE);
    PartsDetermine(SortEntries(es), SortEntries(ds));
    forall e ensures e in es <==> e in ds {
      SortEntriesMembers(es, e);
      SortEntriesMembers(ds, e);
    }
  }

  lemma PartsDetermine(a: seq<Entry<Text>>, b: seq<Entry<Text>>)
    requires Parts(a) == Parts(b)
    ensures a == b
  {
    assert |a| == |Parts(a)| == |b|;
    forall i | 0 <= i < |a| ensures a[i] == b[i] {
      assert Parts(a)[i] == Part(a[i]) && Parts(b)[i] == Part(b[i]);
      QuoteUnique(a[i].key, [COLON] + a[i].value, b[i].key, [COLON] + b[i].value);
      assert ([COLON] + a[i].value)[1..] == a[i].value && ([COLON] + b[i].value)[1..] == b[i].value;
    }
  }

  lemma {:induction false} SameIsSameText<N(!new)>(v: Js<N>, w: Js<N>, num: N -> Text)
    requires WellFormed(v) && WellFormed(w) && Same(v, w)
    ensures Canonicalize(v, num) == Canonicalize(w, num)
    decreases v
  {
    match v
    case Arr(xs) =>
      forall i | 0 <= i < |xs| ensures ItemText(xs[i], num) == ItemText(w.items[i], num) {
        if !xs[i].Undefined? && !xs[i].Null? {
          SameIsSameText(xs[i], w.items[i], num);
        }
      }
      EqualItemTexts(xs, w.items, num);
    case Obj(fs) =>
      forall i, j | 0 <= i < |fs| && 0 <= j < |w.fields| && Same(fs[i].value, w.fields[j].value)
        ensures Canonicalize(fs[i].value, num) == Canonicalize(w.fields[j].value, num)
      {
        SameIsSameText(fs[i].value, w.fields[j].value, num);
      }
      SameCovers(fs, w.fields, num);
      EqualObjectTexts(fs, w.fields, num);
    case _ =>
  }

  lemma {:induction false} EqualItemTexts<N>(xs: seq<Js<N>>, ys: seq<Js<N>>, num: N -> Text)
    requires |xs| == |ys| && forall i :: 0 <= i < |xs| ==> ItemText(xs[i], num) == ItemText(ys[i], num)
    ensures ItemTexts(xs, num) == ItemTexts(ys, num)
  {
    if xs != [] {
      EqualItemTexts(xs[1..], ys[1..], num);
    }
  }

  /** Member i of one object and member j of the other have the same key and print alike. */
  ghost predicate Alike<N>(fs: seq<Field<N>>, i: nat, gs: seq<Field<N>>, j: nat, num: N -> Text) {
    && i < |fs| && j < |gs| && !gs[j].value.Undefined?
    && gs[j].key == fs[i].key && Canonicalize(fs[i].value, num) == Canonicalize(gs[j].value, num)
  }

  /** Every member of one object that is present has its like in the other. */
  ghost predicate Covered<N>(fs: seq<Field<N>>, gs: seq<Field<N>>, num: N -> Text) {
    forall i :: 0 <= i < |fs| && !fs[i].value.Undefined? ==> exists j :: Alike(fs, i, gs, j, num)
  }

  lemma SameCovers<N>(fs: seq<Field<N>>, gs: seq<Field<N>>, num: N -> Text)
    requires Same(Obj(fs), Obj(gs))
    requires forall i, j :: 0 <= i < |fs| && 0 <= j < |gs| && Same(fs[i].value, gs[j].value) ==>
      Canonicalize(fs[i].value, num) == Canonicalize(gs[j].value, num)
    ensures Covered(fs, gs, num) && Covered(gs, fs, num)
  {
    forall i | 0 <= i < |fs| && !fs[i].value.Undefined? ensures exists j :: Alike(fs, i, gs, j, num) {
      var j :| 0 <= j < |gs| && gs[j].key == fs[i].key && Same(fs[i].value, gs[j].value);
      assert Alike(fs, i, gs, j, num);
    }
    forall j | 0 <= j < |gs| && !gs[j].value.Undefined? ensures exists i :: Alike(gs, j, fs, i, num) {
      var i :| 0 <= i < |fs| && fs[i].key == gs[j].key && Same(fs[i].value, gs[j].value);
      assert Alike(gs, j, fs, i, num);
    }
  }

  lemma CoveredEntries<N>(fs: seq<Field<N>>, gs: seq<Field<N>>, num: N -> Text, e: Entry<Text>)
    requires Covered(fs, gs, num) && FieldEntries(fs, num).Some? && FieldEntries(gs, num).Some?
    requires e in FieldEntries(fs, num).value
    ensures e in FieldEntries(gs, num).value
  {
    var i := EntryHasField(fs, num, e);
    var j :| Alike(fs, i, gs, j, num);
    FieldHasEntry(gs, num, j);
  }

  lemma CoveredPrints<N>(fs: seq<Field<N>>, gs: seq<Field<N>>, num: N -> Text)
    requires Covered(fs, gs, num) && FieldEntries(gs, num).Some?
    ensures FieldEntries(fs, num).Some?
  {
    forall i | 0 <= i < |fs| && !fs[i].value.Undefined? ensures Canonicalize(fs[i].value, num).Some? {
      var j :| Alike(fs, i, gs, j, num);
      FieldHasEntry(gs, num, j);
    }
    FieldEntriesExist(fs, num);
  }

  /** Objects that cover each other print as the same sorted entries, or both throw. */
  lemma EqualObjectTexts<N>(fs: seq<Field<N>>, gs: seq<Field<N>>, num: N -> Text)
    requires KeysUnique(fs) && KeysUnique(gs) && Covered(fs, gs, num) && Covered(gs, fs, num)
    ensures Canonicalize(Obj(fs), num) == Canonicalize(Obj(gs), num)
  {
    if FieldEntries(fs, num).Some? {
      CoveredPrints(gs, fs, num);
      var es, ds := FieldEntries(fs, num).value, FieldEntries(gs, num).value;
      EntriesDistinct(fs, num);
      EntriesDistinct(gs, num);
      SortEntriesAscends(es);
      SortEntriesAscends(ds);
      forall e ensures e in SortEntries(es) <==> e in SortEntries(ds) {
        SortEntriesMembers(es, e);
        SortEntriesMembers(ds, e);
        if e in es { CoveredEntries(fs, gs, num, e); }
        if e in ds { CoveredEntries(gs, fs, num, e); }
      }
      AscendingUnique(SortEntries(es), SortEntries(ds));
    } else if FieldEntries(gs, num).Some? {
      CoveredPrints(fs, gs, num);
      assert false;
    }
  }

  /**
   * Canonical text identifies JSON values: two values that canonicalize have the same text exactly
   * when they are the same as unordered values, so key insertion order never shows.
   */
  lemma CanonicalTextIdentifies<N(!new)>(v: Js<N>, w: Js<N>, num: N -> Text)
    requires NumberPrinter(num) && WellFormed(v) && WellFormed(w)
    requires Canonicalize(v, num).Some? && Canonicalize(w, num).Some?
    ensures Canonicalize(v, num) == Canonicalize(w, num) <==> Same(v, w)
  {
    if Canonicalize(v, num) == Canonicalize(w, num) {
      SameTextIsSame(v, w, num);
    }
    if Same(v, w) {
      SameIsSameText(v, w, num);
    }
  }

  /** The order in which an object's keys were added never shows, not even in whether it throws. */
  lemma InsertionOrderNeverShows<N>(fs: seq<Field<N>>, gs: seq<Field<N>>, num: N -> Text)
    requires KeysUnique(fs) && KeysUnique(gs) && multiset(fs) == multiset(gs)
    ensures Canonicalize(Obj(fs), num) == Canonicalize(Obj(gs), num)
  {
    ReorderedCovers(fs, gs, num);
    ReorderedCovers(gs, fs, num);
    EqualObjectTexts(fs, gs, num);
  }

  lemma ReorderedCovers<N>(fs: seq<Field<N>>, gs: seq<Field<N>>, num: N -> Text)
    requires multiset(fs) == multiset(gs)
    ensures Covered(fs, gs, num)
  {
    forall i | 0 <= i < |fs| && !fs[i].value.Undefined? ensures exists j :: Alike(fs, i, gs, j, num) {
      assert fs[i] in multiset(gs);
      var j :| 0 <= j < |gs| && gs[j] == fs[i];
      assert Alike(fs, i, gs, j, num);
    }
  }

  /** A value canonicalizes exactly when it is the same as itself, that is, when it is a JSON value. */
  lemma CanonicalizesIffJson<N(!new)>(v: Js<N>, num: N -> Text)
    requires NumberPrinter(num) && WellFormed(v)
    ensures Canonicalize(v, num).Some? <==> IsJson(v)
    decreases v
  {
    match v
    case Arr(items) =>
      forall i | 0 <= i < |items| ensures ItemText(items[i], num).Some? <==> items[i].Undefined? || IsJson(items[i]) {
        CanonicalizesIffJson(items[i], num);
      }
      ItemTextsIndex(items, num);
    case Obj(fields) =>
      forall i | 0 <= i < |fields| ensures Canonicalize(fields[i].value, num).Some? <==> IsJson(fields[i].value) {
        CanonicalizesIffJson(fields[i].value, num);
      }
      if IsJson(v) {
        FieldEntriesExist(fields, num);
      } else if FieldEntries(fields, num).Some? {
        var i :| 0 <= i < |fields| && !fields[i].value.Undefined? && !IsJson(fields[i].value);
        FieldHasEntry(fields, num, i);
        assert false;
      }
    case _ =>
  }

  /** No non-finite number and nothing without a JSON form, other than undefined members and items. */
  ghost predicate IsJson<N>(v: Js<N>)
    decreases v
  {
    match v
    case Arr(items) => forall i :: 0 <= i < |items| ==> items[i].Undefined? || IsJson(items[i])
    case Obj(fields) => forall i :: 0 <= i < |fields| ==> fields[i].value.Undefined? || IsJson(fields[i].value)
    case Undefined => false
    case NonFinite => false
    case Unsupported => false
    case _ => true
  }
}
