/** The canonical JSON printer whose output is signed: what it prints and what its output identifies. */
module CanonicalJson {
  import opened TextOrder
  import opened Entries

  /** A value as the printer meets it. Numbers are given by the text that String(value) yields, and by
      whether they are integers; object members stand in insertion order. */
  datatype Json =
    | JNull
    | JUndefined
    | JNonFinite
    | JBool(b: bool)
    | JNumber(integer: bool, text: string)
    | JString(s: string)
    | JArray(items: List<Json>)
    | JObject(members: List<Entry<Json>>)

  // ---------------------------------------------------------------------------
  // Scalars
  // ---------------------------------------------------------------------------

  function Hex(n: nat): char
    requires n < 16
  {
    "0123456789abcdef"[n]
  }

  /** JSON.stringify on one character. */
  function EscapeChar(c: char): (t: string)
    ensures |t| >= 1 && t[0] != '\"'
  {
    var n := c as nat;
    if c == '\"' then "\\\""
    else if c == '\\' then "\\\\"
    else if n == 8 then "\\b"
    else if n == 9 then "\\t"
    else if n == 10 then "\\n"
    else if n == 12 then "\\f"
    else if n == 13 then "\\r"
    else if n < 0x20 then ['\\', 'u', '0', '0', Hex(n / 16), Hex(n % 16)]
    else [c]
  }

  function Escape(s: string): string {
    if s == "" then "" else EscapeChar(s[0]) + Escape(s[1..])
  }

  function Quote(s: string): string {
    "\"" + Escape(s) + "\""
  }

  predicate TokenChar(c: char) {
    '0' <= c <= '9' || c == '-' || c == '+' || c == '.' || c == 'e'
  }

  /** What is assumed of number texts: token characters only, a digit or sign in front, and no
      superfluous ".0" behind a number that is not an integer. */
  predicate NumberText(integer: bool, text: string) {
    && |text| > 0 && ('0' <= text[0] <= '9' || text[0] == '-')
    && (forall i :: 0 <= i < |text| ==> TokenChar(text[i]))
    && (!integer ==> |text| < 2 || text[|text| - 2..] != ".0")
  }

  /** Integers get ".0" appended. */
  function PrintNumber(integer: bool, text: string): string {
    if integer then text + ".0" else text
  }

  // ---------------------------------------------------------------------------
  // pythonJsonDumps
  // ---------------------------------------------------------------------------

  /** Array.join(", "). */
  function Join(texts: List<string>): string {
    match texts
    case Nil => ""
    case Cons(t, rest) => if rest.Nil? then t else t + ", " + Join(rest)
  }

  function Pairs(entries: List<Entry<string>>): List<string> {
    match entries
    case Nil => Nil
    case Cons(e, rest) => Cons(Quote(e.key) + ": " + e.value, Pairs(rest))
  }

  function Dumps(o: KeyOrder, j: Json): string {
    match j
    case JNull => "null"
    case JUndefined => "null"
    case JNonFinite => "null"
    case JBool(b) => if b then "true" else "false"
    case JNumber(integer, text) => PrintNumber(integer, text)
    case JString(s) => Quote(s)
    case JArray(items) => if items.Nil? then "[]" else "[" + Join(DumpItems(o, items)) + "]"
    case JObject(members) =>
      if members.Nil? then "{}" else "{" + Join(Pairs(SortEntries(o, DumpMembers(o, members)))) + "}"
  }

  function DumpItems(o: KeyOrder, items: List<Json>): List<string> {
    match items
    case Nil => Nil
    case Cons(j, rest) => Cons(Dumps(o, j), DumpItems(o, rest))
  }

  function DumpMembers(o: KeyOrder, members: List<Entry<Json>>): List<Entry<string>> {
    match members
    case Nil => Nil
    case Cons(m, rest) => Cons(Entry(m.key, Dumps(o, m.value)), DumpMembers(o, rest))
  }

  // ---------------------------------------------------------------------------
  // The two-pass form: sort the tree, then print it as it stands
  // ---------------------------------------------------------------------------

  /** Every object sorted by key, at every depth; what prints as null is null. */
  function Canon(o: KeyOrder, j: Json): Json {
    match j
    case JUndefined => JNull
    case JNonFinite => JNull
    case JArray(items) => JArray(CanonItems(o, items))
    case JObject(members) => JObject(SortEntries(o, CanonMembers(o, members)))
    case _ => j
  }

  function CanonItems(o: KeyOrder, items: List<Json>): List<Json> {
    match items
    case Nil => Nil
    case Cons(j, rest) => Cons(Canon(o, j), CanonItems(o, rest))
  }

  function CanonMembers(o: KeyOrder, members: List<Entry<Json>>): List<Entry<Json>> {
    match members
    case Nil => Nil
    case Cons(m, rest) => Cons(Entry(m.key, Canon(o, m.value)), CanonMembers(o, rest))
  }

  /** Printing without sorting. */
  function Print(j: Json): string {
    match j
    case JNull => "null"
    case JUndefined => "null"
    case JNonFinite => "null"
    case JBool(b) => if b then "true" else "false"
    case JNumber(integer, text) => PrintNumber(integer, text)
    case JString(s) => Quote(s)
    case JArray(items) => "[" + Join(PrintItems(items)) + "]"
    case JObject(members) => "{" + Join(Pairs(PrintMembers(members))) + "}"
  }

  function PrintItems(items: List<Json>): List<string> {
    match items
    case Nil => Nil
    case Cons(j, rest) => Cons(Print(j), PrintItems(rest))
  }

  function PrintMembers(members: List<Entry<Json>>): List<Entry<string>> {
    match members
    case Nil => Nil
    case Cons(m, rest) => Cons(Entry(m.key, Print(m.value)), PrintMembers(rest))
  }

  lemma {:induction false} PrintInserted(o: KeyOrder, m: Entry<Json>, members: List<Entry<Json>>)
    ensures PrintMembers(Insert(o, m, members)) == Insert(o, Entry(m.key, Print(m.value)), PrintMembers(members))
  {
    hide Before, Print;
    if members.Cons? {
      PrintInserted(o, m, members.tail);
    }
  }

  lemma {:induction false} PrintSorted(o: KeyOrder, members: List<Entry<Json>>)
    ensures PrintMembers(SortEntries(o, members)) == SortEntries(o, PrintMembers(members))
  {
    hide Before, Print, Insert;
    if members.Cons? {
      PrintSorted(o, members.tail);
      PrintInserted(o, members.head, SortEntries(o, members.tail));
    }
  }

  /** The one-pass printer prints what the two-pass form prints. */
  lemma {:induction false} DumpsIsPrintedCanon(o: KeyOrder, j: Json)
    ensures Dumps(o, j) == Print(Canon(o, j))
  {
    hide SortEntries, Before;
    match j {
      case JArray(items) =>
        ItemsArePrintedCanon(o, items);
        assert items.Nil? ==> "[" + "" + "]" == "[]";
      case JObject(members) =>
        MembersArePrintedCanon(o, members);
        PrintSorted(o, CanonMembers(o, members));
        SortNil(o);
        assert members.Nil? ==> "{" + "" + "}" == "{}";
      case _ =>
    }
  }

  lemma SortNil(o: KeyOrder)
    ensures SortEntries<Json>(o, Nil) == Nil && SortEntries<string>(o, Nil) == Nil
  {
  }

  lemma {:induction false} ItemsArePrintedCanon(o: KeyOrder, items: List<Json>)
    ensures DumpItems(o, items) == PrintItems(CanonItems(o, items))
  {
    if items.Cons? {
      DumpsIsPrintedCanon(o, items.head);
      ItemsArePrintedCanon(o, items.tail);
    }
  }

  lemma {:induction false} MembersArePrintedCanon(o: KeyOrder, members: List<Entry<Json>>)
    ensures DumpMembers(o, members) == PrintMembers(CanonMembers(o, members))
  {
    if members.Cons? {
      DumpsIsPrintedCanon(o, members.head.value);
      MembersArePrintedCanon(o, members.tail);
    }
  }
}
