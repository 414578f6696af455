/** The canonical texts of Python and Rust, and when they and the TypeScript text are one. */
module PythonJson {
  import opened TextOrder
  import opened Entries
  import opened CanonicalJson
  import opened JsonInjective
  import opened JsonTheorems

  // ---------------------------------------------------------------------------
  // json.dumps(value, sort_keys=True), which escapes everything outside space to tilde
  // ---------------------------------------------------------------------------

  /** A \u escape of a code unit. */
  function UnitEscape(n: nat): (t: string)
    requires n < 0x1_0000
    ensures |t| == 6
  {
    ['\\', 'u', Hex(n / 0x1000), Hex(n / 0x100 % 16), Hex(n / 16 % 16), Hex(n % 16)]
  }

  function PyEscapeChar(c: char): string {
    var n := c as nat;
    if c == '\"' then "\\\""
    else if c == '\\' then "\\\\"
    else if n == 8 then "\\b"
    else if n == 9 then "\\t"
    else if n == 10 then "\\n"
    else if n == 12 then "\\f"
    else if n == 13 then "\\r"
    else if 0x20 <= n < 0x7F then [c]
    else if n < 0x1_0000 then UnitEscape(n)
    else UnitEscape(0xD800 + (n - 0x1_0000) / 0x400) + UnitEscape(0xDC00 + (n - 0x1_0000) % 0x400)
  }

  function PyEscape(s: string): string {
    if s == "" then "" else PyEscapeChar(s[0]) + PyEscape(s[1..])
  }

  function PyQuote(s: string): string {
    "\"" + PyEscape(s) + "\""
  }

  function PyPairs(entries: List<Entry<string>>): List<string> {
    match entries
    case Nil => Nil
    case Cons(e, rest) => Cons(PyQuote(e.key) + ": " + e.value, PyPairs(rest))
  }

  /** A whole number that both languages hold exactly and write in full: up to 15 digits. */
  predicate WholeText(text: string) {
    text == "0" || Figures(text) || (text != "" && text[0] == '-' && Figures(text[1..]))
  }

  predicate Figures(text: string) {
    1 <= |text| <= 15 && text[0] != '0' && forall i :: 0 <= i < |text| ==> '0' <= text[i] <= '9'
  }

  lemma WholeTextIs(text: string)
    requires WholeText(text)
    ensures NumberText(true, text) && NumberText(false, text)
  {
    forall i | 0 <= i < |text| ensures '0' <= text[i] <= '9' || (i == 0 && text[i] == '-') {
      if text[0] == '-' && i > 0 {
        assert text[i] == text[1..][i - 1];
      }
    }
    if |text| >= 2 {
      assert text[|text| - 2..][0] == text[|text| - 2];
    }
  }

  /** A tree as Python holds it, whose numbers are whole: a number is marked when it is a float, written with ".0",
      and unmarked when it is an int. Nothing is undefined. */
  predicate Whole(j: Json) {
    match j
    case JUndefined => false
    case JNonFinite => false
    case JNumber(_, text) => WholeText(text)
    case JArray(items) => WholeItems(items)
    case JObject(members) => WholeMembers(members)
    case _ => true
  }

  predicate WholeItems(items: List<Json>) {
    match items
    case Nil => true
    case Cons(j, rest) => Whole(j) && WholeItems(rest)
  }

  predicate WholeMembers(members: List<Entry<Json>>) {
    match members
    case Nil => true
    case Cons(m, rest) => Whole(m.value) && WholeMembers(rest)
  }

  /** The printer: floats with ".0", ints without. */
  function PyPrint(j: Json): string
    requires Whole(j)
  {
    match j
    case JNull => "null"
    case JBool(b) => if b then "true" else "false"
    case JNumber(float, text) => PrintNumber(float, text)
    case JString(s) => PyQuote(s)
    case JArray(items) => "[" + Join(PyPrintItems(items)) + "]"
    case JObject(members) => "{" + Join(PyPairs(PyPrintMembers(members))) + "}"
  }

  function PyPrintItems(items: List<Json>): List<string>
    requires WholeItems(items)
  {
    match items
    case Nil => Nil
    case Cons(j, rest) => Cons(PyPrint(j), PyPrintItems(rest))
  }

  function PyPrintMembers(members: List<Entry<Json>>): List<Entry<string>>
    requires WholeMembers(members)
  {
    match members
    case Nil => Nil
    case Cons(m, rest) => Cons(Entry(m.key, PyPrint(m.value)), PyPrintMembers(rest))
  }

  /** The tree as TypeScript holds it, which has one kind of number: every whole one is an integer. */
  function Held(j: Json): Json {
    match j
    case JNumber(_, text) => JNumber(true, text)
    case JArray(items) => JArray(HeldItems(items))
    case JObject(members) => JObject(HeldMembers(members))
    case _ => j
  }

  function HeldItems(items: List<Json>): List<Json> {
    match items
    case Nil => Nil
    case Cons(j, rest) => Cons(Held(j), HeldItems(rest))
  }

  function HeldMembers(members: List<Entry<Json>>): List<Entry<Json>> {
    match members
    case Nil => Nil
    case Cons(m, rest) => Cons(Entry(m.key, Held(m.value)), HeldMembers(rest))
  }

  // ---------------------------------------------------------------------------
  // Texts below U+007F
  // ---------------------------------------------------------------------------

  predicate Low(s: string) {
    forall i :: 0 <= i < |s| ==> s[i] as nat < 0x7F
  }

  predicate AllLow(texts: List<string>) {
    match texts
    case Nil => true
    case Cons(t, rest) => Low(t) && AllLow(rest)
  }

  /** No key and no string, at any depth, holds a character from U+007F up. */
  predicate Ascii(j: Json) {
    match j
    case JString(s) => Low(s)
    case JArray(items) => AsciiItems(items)
    case JObject(members) => AsciiMembers(members)
    case _ => true
  }

  predicate AsciiItems(items: List<Json>) {
    match items
    case Nil => true
    case Cons(j, rest) => Ascii(j) && AsciiItems(rest)
  }

  predicate AsciiMembers(members: List<Entry<Json>>) {
    match members
    case Nil => true
    case Cons(m, rest) => Low(m.key) && Ascii(m.value) && AsciiMembers(rest)
  }

  /** Every number, at any depth, is held as a float. */
  predicate AllFloats(j: Json) {
    match j
    case JNumber(float, _) => float
    case JArray(items) => AllFloatItems(items)
    case JObject(members) => AllFloatMembers(members)
    case _ => true
  }

  predicate AllFloatItems(items: List<Json>) {
    match items
    case Nil => true
    case Cons(j, rest) => AllFloats(j) && AllFloatItems(rest)
  }

  predicate AllFloatMembers(members: List<Entry<Json>>) {
    match members
    case Nil => true
    case Cons(m, rest) => AllFloats(m.value) && AllFloatMembers(rest)
  }

  lemma LowConcat(a: string, b: string)
    ensures Low(a + b) <==> Low(a) && Low(b)
  {
    if Low(a + b) {
      forall i | 0 <= i < |a| ensures a[i] as nat < 0x7F {
        assert (a + b)[i] == a[i];
      }
      forall i | 0 <= i < |b| ensures b[i] as nat < 0x7F {
        assert (a + b)[|a| + i] == b[i];
      }
    }
  }

  /** Below the space both escape alike. */
  lemma ControlEscape(n: nat)
    requires n < 0x20
    ensures UnitEscape(n) == ['\\', 'u', '0', '0', Hex(n / 16), Hex(n % 16)]
  {
  }

  lemma HighEscape(c: char)
    requires c as nat >= 0x7F
    ensures !Low(EscapeChar(c)) && Low(PyEscapeChar(c))
  {
    hide UnitEscape;
    var n := c as nat;
    assert EscapeChar(c) == [c];
    LowOne(c);
    if n < 0x1_0000 {
      UnitEscapeLow(n);
    } else {
      var high, low := 0xD800 + (n - 0x1_0000) / 0x400, 0xDC00 + (n - 0x1_0000) % 0x400;
      UnitEscapeLow(high);
      UnitEscapeLow(low);
      LowConcat(UnitEscape(high), UnitEscape(low));
    }
  }

  lemma LowEscape(c: char)
    requires c as nat < 0x7F
    ensures PyEscapeChar(c) == EscapeChar(c) && Low(EscapeChar(c))
  {
    hide UnitEscape, Hex;
    if c as nat < 0x20 {
      ControlEscape(c as nat);
      HexLow(c as nat / 16);
      HexLow(c as nat % 16);
    }
  }

  lemma EscapeCharLow(c: char)
    ensures Low(EscapeChar(c)) <==> c as nat < 0x7F
    ensures c as nat < 0x7F ==> PyEscapeChar(c) == EscapeChar(c)
    ensures Low(PyEscapeChar(c))
  {
    hide EscapeChar, PyEscapeChar, Low;
    if c as nat < 0x7F {
      LowEscape(c);
    } else {
      HighEscape(c);
    }
  }

  lemma UnitEscapeLow(n: nat)
    requires n < 0x1_0000
    ensures Low(UnitEscape(n))
  {
    HexLow(n / 0x1000);
    HexLow(n / 0x100 % 16);
    HexLow(n / 16 % 16);
    HexLow(n % 16);
  }

  lemma HexLow(n: nat)
    requires n < 16
    ensures Hex(n) as nat < 0x7F
  {
  }

  lemma {:induction false} EscapeLow(s: string)
    ensures Low(Escape(s)) <==> Low(s)
    ensures Low(s) ==> PyEscape(s) == Escape(s)
    ensures Low(PyEscape(s))
  {
    hide EscapeChar, PyEscapeChar;
    if s != "" {
      hide Low;
      EscapeCharLow(s[0]);
      EscapeLow(s[1..]);
      LowConcat(EscapeChar(s[0]), Escape(s[1..]));
      LowConcat(PyEscapeChar(s[0]), PyEscape(s[1..]));
      LowConcat([s[0]], s[1..]);
      assert s == [s[0]] + s[1..];
      LowOne(s[0]);
    }
  }

  lemma LowOne(c: char)
    ensures Low([c]) <==> c as nat < 0x7F
  {
    assert [c][0] == c;
  }

  lemma QuoteLow(s: string)
    ensures Low(Quote(s)) <==> Low(s)
    ensures Low(s) ==> PyQuote(s) == Quote(s)
    ensures Low(PyQuote(s))
  {
    hide Low, Escape, PyEscape;
    EscapeLow(s);
    LowOne('\"');
    assert "\"" == ['\"'];
    LowConcat("\"", Escape(s));
    LowConcat("\"" + Escape(s), "\"");
    LowConcat("\"", PyEscape(s));
    LowConcat("\"" + PyEscape(s), "\"");
  }

  lemma LowPunctuation()
    ensures Low(", ") && Low(": ") && Low("[") && Low("]") && Low("{") && Low("}")
    ensures Low("null") && Low("true") && Low("false") && Low("")
  {
  }

  lemma {:induction false} JoinLow(texts: List<string>)
    ensures Low(Join(texts)) <==> AllLow(texts)
  {
    hide Low;
    LowPunctuation();
    if texts.Cons? {
      JoinLow(texts.tail);
      if texts.tail.Cons? {
        LowConcat(texts.head, ", ");
        LowConcat(texts.head + ", ", Join(texts.tail));
      }
    }
  }

  lemma Bracketed(l: string, texts: List<string>, r: string)
    requires Low(l) && Low(r)
    ensures Low(l + Join(texts) + r) <==> AllLow(texts)
  {
    hide Low, Join, AllLow;
    JoinLow(texts);
    LowConcat(l, Join(texts));
    LowConcat(l + Join(texts), r);
  }

  lemma PairLow(key: string, value: string)
    ensures Low(Quote(key) + ": " + value) <==> Low(key) && Low(value)
    ensures Low(PyQuote(key) + ": " + value) <==> Low(value)
  {
    hide Low, Quote, PyQuote;
    LowPunctuation();
    QuoteLow(key);
    LowConcat(Quote(key), ": ");
    LowConcat(Quote(key) + ": ", value);
    LowConcat(PyQuote(key), ": ");
    LowConcat(PyQuote(key) + ": ", value);
  }

  lemma NumberLow(float: bool, text: string)
    requires WholeText(text)
    ensures Low(PrintNumber(float, text))
  {
    WholeTextIs(text);
    assert Low(".0");
    LowConcat(text, ".0");
  }

  /** The TypeScript text is ASCII exactly when the tree is; the Python text always is, and on an ASCII tree it is
      the text the TypeScript printer gives for the same numbers. */
  lemma {:induction false} TextsOf(j: Json)
    requires Whole(j)
    ensures Low(Print(j)) <==> Ascii(j)
    ensures Ascii(j) ==> PyPrint(j) == Print(j)
    ensures Low(PyPrint(j))
    decreases j
  {
    hide Low, Quote, PyQuote, Join, Pairs, PyPairs, AllLow, NumberText, WholeText;
    LowPunctuation();
    match j {
      case JNumber(float, text) => NumberLow(float, text);
      case JString(s) => QuoteLow(s);
      case JArray(items) =>
        TextsOfItems(items);
        Bracketed("[", PrintItems(items), "]");
        Bracketed("[", PyPrintItems(items), "]");
      case JObject(members) =>
        TextsOfMembers(members);
        Bracketed("{", Pairs(PrintMembers(members)), "}");
        Bracketed("{", PyPairs(PyPrintMembers(members)), "}");
      case _ =>
    }
  }

  lemma {:induction false} TextsOfItems(items: List<Json>)
    requires WholeItems(items)
    ensures AllLow(PrintItems(items)) <==> AsciiItems(items)
    ensures AsciiItems(items) ==> PyPrintItems(items) == PrintItems(items)
    ensures AllLow(PyPrintItems(items))
    decreases items
  {
    hide Low, Print, PyPrint, Ascii, Held;
    if items.Cons? {
      TextsOf(items.head);
      TextsOfItems(items.tail);
    }
  }

  lemma {:induction false} TextsOfMembers(members: List<Entry<Json>>)
    requires WholeMembers(members)
    ensures AllLow(Pairs(PrintMembers(members))) <==> AsciiMembers(members)
    ensures AsciiMembers(members) ==> PyPairs(PyPrintMembers(members)) == Pairs(PrintMembers(members))
    ensures AllLow(PyPairs(PyPrintMembers(members)))
    decreases members
  {
    hide Low, Print, PyPrint, Ascii, Quote, PyQuote, Held;
    if members.Cons? {
      var m := members.head;
      TextsOf(m.value);
      TextsOfMembers(members.tail);
      QuoteLow(m.key);
      PairLow(m.key, Print(m.value));
      PairLow(m.key, PyPrint(m.value));
    }
  }

  /** TypeScript holds the same tree exactly when Python holds floats only; its strings are the same anyway. */
  lemma {:induction false} HeldIs(j: Json)
    requires Whole(j)
    ensures Plain(j) && Whole(Held(j)) && Plain(Held(j))
    ensures (Ascii(Held(j)) <==> Ascii(j)) && AllFloats(Held(j)) && (Held(j) == j <==> AllFloats(j))
    decreases j
  {
    hide NumberText, WholeText, Low;
    match j {
      case JNumber(_, text) => WholeTextIs(text);
      case JArray(items) => HeldItemsAre(items);
      case JObject(members) => HeldMembersAre(members);
      case _ =>
    }
  }

  lemma {:induction false} HeldItemsAre(items: List<Json>)
    requires WholeItems(items)
    ensures var h := HeldItems(items);
      && PlainItems(items) && WholeItems(h) && PlainItems(h)
      && (AsciiItems(h) <==> AsciiItems(items)) && AllFloatItems(h) && (h == items <==> AllFloatItems(items))
    decreases items
  {
    hide Whole, Plain, Held, AllFloats, Ascii;
    if items.Cons? {
      HeldIs(items.head);
      HeldItemsAre(items.tail);
    }
  }

  lemma {:induction false} HeldMembersAre(members: List<Entry<Json>>)
    requires WholeMembers(members)
    ensures var h := HeldMembers(members);
      && PlainMembers(members) && WholeMembers(h) && PlainMembers(h)
      && (AsciiMembers(h) <==> AsciiMembers(members)) && AllFloatMembers(h)
      && (h == members <==> AllFloatMembers(members))
    decreases members
  {
    hide Whole, Plain, Held, AllFloats, Ascii, Low;
    if members.Cons? {
      HeldIs(members.head.value);
      HeldMembersAre(members.tail);
    }
  }

  lemma {:induction false} HeldInserted(o: KeyOrder, m: Entry<Json>, members: List<Entry<Json>>)
    ensures HeldMembers(Insert(o, m, members)) == Insert(o, Entry(m.key, Held(m.value)), HeldMembers(members))
  {
    hide Before, Held;
    if members.Cons? {
      HeldInserted(o, m, members.tail);
    }
  }

  lemma {:induction false} HeldSorted(o: KeyOrder, members: List<Entry<Json>>)
    ensures HeldMembers(SortEntries(o, members)) == SortEntries(o, HeldMembers(members))
  {
    hide Insert, Held;
    if members.Cons? {
      HeldSorted(o, members.tail);
      HeldInserted(o, members.head, SortEntries(o, members.tail));
    }
  }

  /** Sorting a tree and changing the language that holds it commute. */
  lemma {:induction false} HeldCanon(o: KeyOrder, j: Json)
    ensures Canon(o, Held(j)) == Held(Canon(o, j))
    decreases j
  {
    hide SortEntries;
    match j {
      case JArray(items) => HeldCanonItems(o, items);
      case JObject(members) =>
        HeldCanonMembers(o, members);
        HeldSorted(o, CanonMembers(o, members));
      case _ =>
    }
  }

  lemma {:induction false} HeldCanonItems(o: KeyOrder, items: List<Json>)
    ensures CanonItems(o, HeldItems(items)) == HeldItems(CanonItems(o, items))
    decreases items
  {
    hide Canon, Held;
    if items.Cons? {
      HeldCanon(o, items.head);
      HeldCanonItems(o, items.tail);
    }
  }

  lemma {:induction false} HeldCanonMembers(o: KeyOrder, members: List<Entry<Json>>)
    ensures CanonMembers(o, HeldMembers(members)) == HeldMembers(CanonMembers(o, members))
    decreases members
  {
    hide Canon, Held;
    if members.Cons? {
      HeldCanon(o, members.head.value);
      HeldCanonMembers(o, members.tail);
    }
  }

  // ---------------------------------------------------------------------------
  // Sorting keeps all this, and ASCII keys sort alike
  // ---------------------------------------------------------------------------

  lemma {:induction false} InsertKeeps(o: KeyOrder, m: Entry<Json>, members: List<Entry<Json>>)
    ensures AsciiMembers(Insert(o, m, members)) <==> Low(m.key) && Ascii(m.value) && AsciiMembers(members)
    ensures AllFloatMembers(Insert(o, m, members)) <==> AllFloats(m.value) && AllFloatMembers(members)
    ensures WholeMembers(Insert(o, m, members)) <==> Whole(m.value) && WholeMembers(members)
  {
    hide Before, Low, Ascii, AllFloats, Whole;
    if members.Cons? {
      InsertKeeps(o, m, members.tail);
    }
  }

  lemma {:induction false} SortKeeps(o: KeyOrder, members: List<Entry<Json>>)
    ensures AsciiMembers(SortEntries(o, members)) <==> AsciiMembers(members)
    ensures AllFloatMembers(SortEntries(o, members)) <==> AllFloatMembers(members)
    ensures WholeMembers(SortEntries(o, members)) <==> WholeMembers(members)
  {
    hide Insert, Low, Ascii, AllFloats, Whole;
    if members.Cons? {
      SortKeeps(o, members.tail);
      InsertKeeps(o, members.head, SortEntries(o, members.tail));
    }
  }

  lemma {:induction false} CanonKeeps(o: KeyOrder, j: Json)
    requires Whole(j)
    ensures var c := Canon(o, j);
      Whole(c) && (Ascii(c) <==> Ascii(j)) && (AllFloats(c) <==> AllFloats(j))
    decreases j
  {
    hide Low, SortEntries, WholeText;
    match j {
      case JArray(items) => CanonItemsKeep(o, items);
      case JObject(members) =>
        CanonMembersKeep(o, members);
        SortKeeps(o, CanonMembers(o, members));
      case _ =>
    }
  }

  lemma {:induction false} CanonItemsKeep(o: KeyOrder, items: List<Json>)
    requires WholeItems(items)
    ensures var c := CanonItems(o, items);
      WholeItems(c) && (AsciiItems(c) <==> AsciiItems(items)) && (AllFloatItems(c) <==> AllFloatItems(items))
    decreases items
  {
    hide Low, Canon, Ascii, AllFloats, Whole;
    if items.Cons? {
      CanonKeeps(o, items.head);
      CanonItemsKeep(o, items.tail);
    }
  }

  lemma {:induction false} CanonMembersKeep(o: KeyOrder, members: List<Entry<Json>>)
    requires WholeMembers(members)
    ensures var c := CanonMembers(o, members);
      && WholeMembers(c) && (AsciiMembers(c) <==> AsciiMembers(members))
      && (AllFloatMembers(c) <==> AllFloatMembers(members))
    decreases members
  {
    hide Low, Canon, Ascii, AllFloats, Whole;
    if members.Cons? {
      CanonKeeps(o, members.head.value);
      CanonMembersKeep(o, members.tail);
    }
  }

  lemma {:induction false} LowKeysAgree(k: string, l: string)
    requires Low(k)
    ensures !Inverted(k, l) || !Low(l)
  {
    if k != "" && l != "" && k[0] == l[0] && Low(l) {
      LowKeysAgree(k[1..], l[1..]);
    }
  }

  lemma {:induction false} FoundKeyIsLow(members: List<Entry<Json>>, k: string)
    requires AsciiMembers(members) && Find(members, k).Some?
    ensures Low(k)
  {
    if members.head.key != k {
      FoundKeyIsLow(members.tail, k);
    }
  }

  lemma {:induction false} AsciiHasNoInversion(j: Json)
    requires Ascii(j)
    ensures !HasInversion(j)
    decreases j
  {
    hide Low, Inverted;
    match j {
      case JArray(items) => AsciiItemsHaveNone(items);
      case JObject(members) =>
        AsciiMembersHaveNone(members);
        forall k, l | Find(members, k).Some? && Find(members, l).Some?
          ensures !Inverted(k, l)
        {
          FoundKeyIsLow(members, k);
          FoundKeyIsLow(members, l);
          LowKeysAgree(k, l);
        }
      case _ =>
    }
  }

  lemma {:induction false} AsciiItemsHaveNone(items: List<Json>)
    requires AsciiItems(items)
    ensures !ItemsHaveInversion(items)
    decreases items
  {
    if items.Cons? {
      AsciiHasNoInversion(items.head);
      AsciiItemsHaveNone(items.tail);
    }
  }

  lemma {:induction false} AsciiMembersHaveNone(members: List<Entry<Json>>)
    requires AsciiMembers(members)
    ensures !MembersHaveInversion(members)
    decreases members
  {
    if members.Cons? {
      AsciiHasNoInversion(members.head.value);
      AsciiMembersHaveNone(members.tail);
    }
  }

  // ---------------------------------------------------------------------------
  // The two texts
  // ---------------------------------------------------------------------------

  /** Python sorts keys by code point. */
  function PythonBody(j: Json): string
    requires Whole(j)
  {
    CanonKeeps(CodePointOrder, j);
    PyPrint(Canon(CodePointOrder, j))
  }

  /** On trees whose numbers are whole, the TypeScript printer gives Python's text exactly when no key and no
      string holds a character from U+007F up and Python holds every number as a float. */
  lemma PythonPrintsTheSameIff(j: Json)
    requires WellFormed(j) && Whole(j)
    ensures Dumps(Utf16Order, Held(j)) == PythonBody(j) <==> Ascii(j) && AllFloats(j)
  {
    hide Dumps, Print, PyPrint, Canon, HasInversion, Low, Ascii, WellFormed, AllFloats, Whole, Held, Plain;
    DumpsIsPrintedCanon(Utf16Order, Held(j));
    HeldCanon(Utf16Order, j);
    CanonKeeps(Utf16Order, j);
    CanonKeeps(CodePointOrder, j);
    var script, python := Canon(Utf16Order, j), Canon(CodePointOrder, j);
    HeldIs(script);
    TextsOf(Held(script));
    TextsOf(python);
    if Ascii(j) {
      AsciiHasNoInversion(j);
      CanonAgrees(j);
      if Print(Held(script)) == Print(script) {
        PrintUnique(Held(script), script, "", "");
      }
    }
  }

  /** A one-letter string on which they part, for which Python writes an escape; and the int one, which TypeScript
      writes with a fraction. */
  lemma PythonCanDiffer()
    ensures var j := JString("\U{00E9}");
      Dumps(Utf16Order, Held(j)) == "\"\U{00E9}\"" && PythonBody(j) == "\"\\u00e9\""
    ensures var j := JNumber(false, "1");
      WellFormed(j) && Whole(j) && Dumps(Utf16Order, Held(j)) == "1.0" && PythonBody(j) == "1"
  {
    var s := "\U{00E9}";
    assert s[0] as nat == 0xE9 && s[1..] == "";
    assert Escape(s) == EscapeChar(s[0]) + Escape("") == s + "";
    assert PyEscape(s) == PyEscapeChar(s[0]) + PyEscape("");
    assert UnitEscape(0xE9) == "\\u00e9";
    assert "\\u00e9" + "" == "\\u00e9";
    assert "1"[0] == '1';
  }

  // ---------------------------------------------------------------------------
  // Rust
  // ---------------------------------------------------------------------------

  /** Rust keeps ints and floats apart as Python does, escapes strings as TypeScript does, and sorts keys by code
      point. */
  function RustBody(j: Json): string {
    Print(Canon(CodePointOrder, j))
  }

  /** On trees whose numbers are whole, Rust gives Python's text exactly when no key and no string holds a character
      from U+007F up. */
  lemma RustPrintsPythonsTextIff(j: Json)
    requires Whole(j)
    ensures RustBody(j) == PythonBody(j) <==> Ascii(j)
  {
    hide Print, PyPrint, Canon, Low, Ascii, Whole;
    CanonKeeps(CodePointOrder, j);
    TextsOf(Canon(CodePointOrder, j));
  }

  /** And TypeScript's exactly when it holds every number as a float and no object has two keys that part at a
      surrogate pair against U+E000..U+FFFF. */
  lemma RustPrintsTheSameIff(j: Json)
    requires WellFormed(j) && Whole(j)
    ensures Dumps(Utf16Order, Held(j)) == RustBody(j) <==> !HasInversion(j) && AllFloats(j)
  {
    hide Dumps, Print, Canon, HasInversion, WellFormed, AllFloats, Whole, Held, Plain;
    DumpsIsPrintedCanon(Utf16Order, Held(j));
    HeldCanon(Utf16Order, j);
    CanonAgrees(j);
    CanonKeeps(Utf16Order, j);
    CanonKeeps(CodePointOrder, j);
    var script, rust := Canon(Utf16Order, j), Canon(CodePointOrder, j);
    HeldIs(script);
    HeldIs(rust);
    if Dumps(Utf16Order, Held(j)) == RustBody(j) {
      assert Print(Held(script)) + "" == Print(rust) + "";
      PrintUnique(Held(script), rust, "", "");
    }
  }

  /** A one-letter string that Python escapes and Rust does not, and an object whose keys TypeScript and Rust order
      differently: U+10000 comes before U+FFFF by code units and behind it by code points. */
  lemma RustCanDiffer()
    ensures var j := JString("\U{00E9}");
      Whole(j) && RustBody(j) == "\"\U{00E9}\"" && PythonBody(j) == "\"\\u00e9\""
    ensures var j := JObject(Cons(Entry("\U{10000}", JNull), Cons(Entry("\U{FFFF}", JNull), Nil)));
      && WellFormed(j) && Whole(j) && AllFloats(j)
      && Dumps(Utf16Order, Held(j)) != RustBody(j)
  {
    PythonCanDiffer();
    var k, l := "\U{10000}", "\U{FFFF}";
    var members := Cons(Entry(k, JNull), Cons(Entry(l, JNull), Nil));
    var j := JObject(members);
    assert k[0] as nat == 0x10000 && l[0] as nat == 0xFFFF;
    assert Inverted(k, l);
    assert Find(members, k).Some? && Find(members, l).Some?;
    assert HasInversion(j);
    RustPrintsTheSameIff(j);
  }
}
