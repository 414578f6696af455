/** The printed text determines the tree: no two different trees print alike, not even as the front of
    a longer text. */
module JsonInjective {
  import opened TextOrder
  import opened Entries
  import opened CanonicalJson

  /** Numbers are texts of numbers; nothing is undefined or not finite. */
  predicate Plain(j: Json) {
    match j
    case JUndefined => false
    case JNonFinite => false
    case JNumber(integer, text) => NumberText(integer, text)
    case JArray(items) => PlainItems(items)
    case JObject(members) => PlainMembers(members)
    case _ => true
  }

  predicate PlainItems(items: List<Json>) {
    match items
    case Nil => true
    case Cons(j, rest) => Plain(j) && PlainItems(rest)
  }

  predicate PlainMembers(members: List<Entry<Json>>) {
    match members
    case Nil => true
    case Cons(m, rest) => Plain(m.value) && PlainMembers(rest)
  }

  /** What can follow a value: nothing, or a character that ends it. */
  predicate Tail(x: string) {
    x == "" || x[0] == ',' || x[0] == ']' || x[0] == '}'
  }

  // ---------------------------------------------------------------------------
  // Strings
  // ---------------------------------------------------------------------------

  lemma HexInjective(m: nat, n: nat)
    requires m < 16 && n < 16 && Hex(m) == Hex(n)
    ensures m == n
  {
  }

  lemma SplitFront(p: string, q: string, u: string, v: string)
    requires |p| == |q| && p + u == q + v
    ensures p == q && u == v
  {
    assert (p + u)[..|p|] == p && (q + v)[..|q|] == q;
    assert (p + u)[|p|..] == u && (q + v)[|q|..] == v;
  }

  /** The third character of a long escape is no short escape's last one. */
  lemma EscapeLength(c: char)
    ensures |EscapeChar(c)| == 1 <==> EscapeChar(c)[0] != '\\'
    ensures |EscapeChar(c)| == 1 || |EscapeChar(c)| == 2 || |EscapeChar(c)| == 6
    ensures |EscapeChar(c)| == 6 <==> |EscapeChar(c)| > 1 && EscapeChar(c)[1] == 'u'
  {
  }

  lemma SameEscape(c: char, d: char)
    requires EscapeChar(c) == EscapeChar(d)
    ensures c == d
  {
    var m, n := c as nat, d as nat;
    if |EscapeChar(c)| == 6 {
      assert EscapeChar(c)[4] == Hex(m / 16) && EscapeChar(c)[5] == Hex(m % 16);
      assert EscapeChar(d)[4] == Hex(n / 16) && EscapeChar(d)[5] == Hex(n % 16);
      HexInjective(m / 16, n / 16);
      HexInjective(m % 16, n % 16);
    }
  }

  lemma EscapeUnique(c: char, d: char, u: string, v: string)
    requires EscapeChar(c) + u == EscapeChar(d) + v
    ensures c == d && u == v
  {
    var p, q := EscapeChar(c), EscapeChar(d);
    EscapeLength(c);
    EscapeLength(d);
    assert (p + u)[0] == p[0] && (q + v)[0] == q[0];
    if |p| > 1 {
      assert (p + u)[1] == p[1] && (q + v)[1] == q[1];
    }
    hide EscapeChar;
    SplitFront(p, q, u, v);
    SameEscape(c, d);
  }

  lemma {:induction false} EscapeUniqueText(s: string, t: string, x: string, y: string)
    requires Escape(s) + "\"" + x == Escape(t) + "\"" + y
    ensures s == t && x == y
    decreases |s|
  {
    hide EscapeChar;
    var l, r := Escape(s) + "\"" + x, Escape(t) + "\"" + y;
    assert s != "" ==> l[0] == EscapeChar(s[0])[0] != '\"';
    assert t != "" ==> r[0] == EscapeChar(t[0])[0] != '\"';
    assert s == "" ==> l[0] == '\"' && l[1..] == x;
    assert t == "" ==> r[0] == '\"' && r[1..] == y;
    if s != "" {
      var a, b := Escape(s[1..]) + "\"" + x, Escape(t[1..]) + "\"" + y;
      assert l == EscapeChar(s[0]) + a && r == EscapeChar(t[0]) + b;
      EscapeUnique(s[0], t[0], a, b);
      EscapeUniqueText(s[1..], t[1..], x, y);
      assert s == [s[0]] + s[1..] && t == [t[0]] + t[1..];
    }
  }

  lemma QuoteUnique(s: string, t: string, x: string, y: string)
    requires Quote(s) + x == Quote(t) + y
    ensures s == t && x == y
  {
    hide Escape;
    assert (Quote(s) + x)[1..] == Escape(s) + "\"" + x;
    assert (Quote(t) + y)[1..] == Escape(t) + "\"" + y;
    EscapeUniqueText(s, t, x, y);
  }

  // ---------------------------------------------------------------------------
  // Numbers
  // ---------------------------------------------------------------------------

  predicate Token(s: string) {
    forall i :: 0 <= i < |s| ==> TokenChar(s[i])
  }

  lemma LongestToken(s: string, t: string, x: string, y: string)
    requires Token(s) && Token(t) && Tail(x) && Tail(y) && s + x == t + y
    ensures s == t && x == y
  {
    var l, r := s + x, t + y;
    assert forall i :: 0 <= i < |s| ==> l[i] == s[i];
    assert forall i :: 0 <= i < |t| ==> r[i] == t[i];
    assert |s| < |l| ==> l[|s|] == x[0] && !TokenChar(l[|s|]);
    assert |t| < |r| ==> r[|t|] == y[0] && !TokenChar(r[|t|]);
    assert |s| == |t|;
    SplitFront(s, t, x, y);
  }

  lemma NumberUnique(i: bool, s: string, j: bool, t: string, x: string, y: string)
    requires NumberText(i, s) && NumberText(j, t) && Tail(x) && Tail(y)
    requires PrintNumber(i, s) + x == PrintNumber(j, t) + y
    ensures i == j && s == t && x == y
  {
    var p, q := PrintNumber(i, s), PrintNumber(j, t);
    LongestToken(p, q, x, y);
    assert i ==> p[|p| - 2..] == ".0" && p[..|p| - 2] == s;
    assert j ==> q[|q| - 2..] == ".0" && q[..|q| - 2] == t;
  }

  // ---------------------------------------------------------------------------
  // Values
  // ---------------------------------------------------------------------------

  /** The text of a list behind its opening bracket. */
  function ItemsText(items: List<Json>): string {
    match items
    case Nil => "]"
    case Cons(j, rest) => Print(j) + if rest.Nil? then "]" else ", " + ItemsText(rest)
  }

  function MembersText(members: List<Entry<Json>>): string {
    match members
    case Nil => "}"
    case Cons(m, rest) => Quote(m.key) + (": " + (Print(m.value) + if rest.Nil? then "}" else ", " + MembersText(rest)))
  }

  lemma {:induction false} ItemsTextIsJoined(items: List<Json>)
    ensures Join(PrintItems(items)) + "]" == ItemsText(items)
  {
    hide Print;
    if items.Cons? && items.tail.Cons? {
      ItemsTextIsJoined(items.tail);
    }
  }

  lemma {:induction false} MembersTextIsJoined(members: List<Entry<Json>>)
    ensures Join(Pairs(PrintMembers(members))) + "}" == MembersText(members)
  {
    hide Print, Quote;
    if members.Cons? && members.tail.Cons? {
      MembersTextIsJoined(members.tail);
    }
  }

  /** What kind of value a text starts with. */
  function Kind(j: Json): nat {
    match j
    case JNull => 0
    case JUndefined => 0
    case JNonFinite => 0
    case JBool(b) => if b then 1 else 2
    case JNumber(_, _) => 3
    case JString(_) => 4
    case JArray(_) => 5
    case JObject(_) => 6
  }

  function KindOf(c: char): nat {
    if c == 'n' then 0 else if c == 't' then 1 else if c == 'f' then 2
    else if c == '\"' then 4 else if c == '[' then 5 else if c == '{' then 6 else if c == ']' then 7 else 3
  }

  lemma FirstCharacter(j: Json)
    requires Plain(j)
    ensures |Print(j)| > 0 && KindOf(Print(j)[0]) == Kind(j)
  {
  }

  lemma SameKind(a: Json, b: Json, x: string, y: string)
    requires Plain(a) && Plain(b) && Print(a) + x == Print(b) + y
    ensures Kind(a) == Kind(b)
  {
    hide Print, Plain;
    FirstCharacter(a);
    FirstCharacter(b);
    assert (Print(a) + x)[0] == Print(a)[0] && (Print(b) + y)[0] == Print(b)[0];
  }

  lemma PrintArray(items: List<Json>, x: string)
    ensures Print(JArray(items)) + x == "[" + (ItemsText(items) + x)
  {
    ItemsTextIsJoined(items);
  }

  lemma PrintObject(members: List<Entry<Json>>, x: string)
    ensures Print(JObject(members)) + x == "{" + (MembersText(members) + x)
  {
    MembersTextIsJoined(members);
  }

  lemma DropFirst(c: string, u: string, v: string)
    requires |c| == 1 && c + u == c + v
    ensures u == v
  {
    SplitFront(c, c, u, v);
  }

  /** Main step: a printed value in front of something that ends it can be read back. */
  lemma {:induction false} PrintUnique(a: Json, b: Json, x: string, y: string)
    requires Plain(a) && Plain(b) && Tail(x) && Tail(y)
    requires Print(a) + x == Print(b) + y
    ensures a == b && x == y
    decreases a
  {
    SameKind(a, b, x, y);
    match a {
      case JNumber(i, s) =>
        NumberUnique(i, s, b.integer, b.text, x, y);
      case JString(s) =>
        QuoteUnique(s, b.s, x, y);
      case JArray(items) =>
        PrintArray(items, x);
        PrintArray(b.items, y);
        DropFirst("[", ItemsText(items) + x, ItemsText(b.items) + y);
        ItemsUnique(items, b.items, x, y);
      case JObject(members) =>
        PrintObject(members, x);
        PrintObject(b.members, y);
        DropFirst("{", MembersText(members) + x, MembersText(b.members) + y);
        MembersUnique(members, b.members, x, y);
      case JNull =>
        SplitFront("null", "null", x, y);
      case JBool(t) =>
        SplitFront(Print(a), Print(a), x, y);
    }
  }

  /** What follows an item: the bracket, or a comma and the rest. */
  function AfterItem(rest: List<Json>, x: string): (t: string)
    ensures Tail(t) && |t| > 0
  {
    (if rest.Nil? then "]" else ", " + ItemsText(rest)) + x
  }

  lemma ItemsTextStep(items: List<Json>, x: string)
    requires items.Cons?
    ensures ItemsText(items) + x == Print(items.head) + AfterItem(items.tail, x)
  {
  }

  lemma ItemsEnd(items: List<Json>, x: string)
    requires PlainItems(items)
    ensures (ItemsText(items) + x)[0] == ']' <==> items.Nil?
  {
    if items.Cons? {
      FirstCharacter(items.head);
    }
  }

  lemma AfterItemUnique(a: List<Json>, b: List<Json>, x: string, y: string)
    requires AfterItem(a, x) == AfterItem(b, y)
    ensures a.Nil? == b.Nil?
    ensures a.Nil? ==> x == y
    ensures a.Cons? ==> ItemsText(a) + x == ItemsText(b) + y
  {
    hide ItemsText;
    assert AfterItem(a, x)[0] == (if a.Nil? then ']' else ',');
    assert AfterItem(b, y)[0] == (if b.Nil? then ']' else ',');
    if a.Nil? {
      assert AfterItem(a, x)[1..] == x && AfterItem(b, y)[1..] == y;
    } else {
      assert AfterItem(a, x)[2..] == ItemsText(a) + x && AfterItem(b, y)[2..] == ItemsText(b) + y;
    }
  }

  lemma {:induction false} ItemsUnique(a: List<Json>, b: List<Json>, x: string, y: string)
    requires PlainItems(a) && PlainItems(b) && ItemsText(a) + x == ItemsText(b) + y
    ensures a == b && x == y
    decreases a
  {
    ItemsEnd(a, x);
    ItemsEnd(b, y);
    if a.Nil? {
      assert (ItemsText(a) + x)[1..] == x && (ItemsText(b) + y)[1..] == y;
    } else {
      hide Print, Plain;
      ItemsTextStep(a, x);
      ItemsTextStep(b, y);
      PrintUnique(a.head, b.head, AfterItem(a.tail, x), AfterItem(b.tail, y));
      AfterItemUnique(a.tail, b.tail, x, y);
      if a.tail.Cons? {
        ItemsUnique(a.tail, b.tail, x, y);
      }
    }
  }

  function AfterMember(rest: List<Entry<Json>>, x: string): (t: string)
    ensures Tail(t) && |t| > 0
  {
    (if rest.Nil? then "}" else ", " + MembersText(rest)) + x
  }

  lemma MembersTextStep(members: List<Entry<Json>>, x: string)
    requires members.Cons?
    ensures var m := members.head;
      MembersText(members) + x == Quote(m.key) + (": " + (Print(m.value) + AfterMember(members.tail, x)))
  {
    hide Quote, Print;
  }

  lemma MembersEnd(members: List<Entry<Json>>, x: string)
    ensures (MembersText(members) + x)[0] == '}' <==> members.Nil?
  {
    hide Print;
  }

  lemma AfterMemberUnique(a: List<Entry<Json>>, b: List<Entry<Json>>, x: string, y: string)
    requires AfterMember(a, x) == AfterMember(b, y)
    ensures a.Nil? == b.Nil?
    ensures a.Nil? ==> x == y
    ensures a.Cons? ==> MembersText(a) + x == MembersText(b) + y
  {
    hide MembersText;
    assert AfterMember(a, x)[0] == (if a.Nil? then '}' else ',');
    assert AfterMember(b, y)[0] == (if b.Nil? then '}' else ',');
    if a.Nil? {
      assert AfterMember(a, x)[1..] == x && AfterMember(b, y)[1..] == y;
    } else {
      assert AfterMember(a, x)[2..] == MembersText(a) + x && AfterMember(b, y)[2..] == MembersText(b) + y;
    }
  }

  lemma {:induction false} MembersUnique(a: List<Entry<Json>>, b: List<Entry<Json>>, x: string, y: string)
    requires PlainMembers(a) && PlainMembers(b) && MembersText(a) + x == MembersText(b) + y
    ensures a == b && x == y
    decreases a
  {
    MembersEnd(a, x);
    MembersEnd(b, y);
    if a.Nil? {
      assert (MembersText(a) + x)[1..] == x && (MembersText(b) + y)[1..] == y;
    } else {
      hide Print, Plain, Quote;
      var m, n := a.head, b.head;
      MembersTextStep(a, x);
      MembersTextStep(b, y);
      var u, v := Print(m.value) + AfterMember(a.tail, x), Print(n.value) + AfterMember(b.tail, y);
      QuoteUnique(m.key, n.key, ": " + u, ": " + v);
      SplitFront(": ", ": ", u, v);
      PrintUnique(m.value, n.value, AfterMember(a.tail, x), AfterMember(b.tail, y));
      AfterMemberUnique(a.tail, b.tail, x, y);
      if a.tail.Cons? {
        MembersUnique(a.tail, b.tail, x, y);
      }
    }
  }
}
