/** The canonical bodies under message signatures and delegation token signatures. */
module SigningBodies {
  import opened Wrappers
  import opened TextOrder
  import opened Entries
  import opened CanonicalJson
  import opened JsonTheorems

  // ---------------------------------------------------------------------------
  // Objects with fixed keys
  // ---------------------------------------------------------------------------

  /** Members with these keys and values. */
  function Record(keys: List<string>, values: List<Json>): List<Entry<Json>> {
    if keys.Nil? || values.Nil? then Nil
    else Cons(Entry(keys.head, values.head), Record(keys.tail, values.tail))
  }

  predicate Distinct(keys: List<string>) {
    match keys
    case Nil => true
    case Cons(k, rest) => !Contains(rest, k) && Distinct(rest)
  }

  predicate Contains(keys: List<string>, k: string) {
    keys.Cons? && (keys.head == k || Contains(keys.tail, k))
  }

  function Length<T>(l: List<T>): nat {
    match l
    case Nil => 0
    case Cons(_, rest) => 1 + Length(rest)
  }

  lemma {:induction false} FindInRecord(keys: List<string>, values: List<Json>, k: string)
    requires Length(keys) == Length(values)
    ensures Find(Record(keys, values), k).Some? <==> Contains(keys, k)
  {
    if keys.Cons? {
      FindInRecord(keys.tail, values.tail, k);
    }
  }

  lemma {:induction false} RecordWellFormed(keys: List<string>, values: List<Json>)
    requires Length(keys) == Length(values) && Distinct(keys) && WellFormedItems(values)
    ensures DistinctKeys(Record(keys, values)) && WellFormedMembers(Record(keys, values))
  {
    if keys.Cons? {
      FindInRecord(keys.tail, values.tail, keys.head);
      RecordWellFormed(keys.tail, values.tail);
    }
  }

  /** Member by member against the rest of a record whose front has other keys. */
  lemma {:induction false} RecordTailsSame(keys: List<string>, v: List<Json>, w: List<Json>, all: List<Entry<Json>>)
    requires Length(keys) == Length(v) == Length(w) && Distinct(keys)
    requires forall k :: Contains(keys, k) ==> Find(all, k) == Find(Record(keys, w), k)
    ensures SameMembers(Record(keys, v), all) <==> SameItems(v, w)
  {
    if keys.Cons? {
      assert Contains(keys, keys.head);
      forall k | Contains(keys.tail, k) ensures Find(all, k) == Find(Record(keys.tail, w.tail), k) {
        assert Contains(keys, k) && k != keys.head;
      }
      RecordTailsSame(keys.tail, v.tail, w.tail, all);
    }
  }

  /** Records with the same keys are the same exactly when their values are. */
  lemma RecordsSame(keys: List<string>, v: List<Json>, w: List<Json>)
    requires Length(keys) == Length(v) == Length(w) && Distinct(keys)
    ensures Same(JObject(Record(keys, v)), JObject(Record(keys, w))) <==> SameItems(v, w)
  {
    hide Record;
    RecordTailsSame(keys, v, w, Record(keys, w));
    forall k ensures Find(Record(keys, v), k).Some? == Find(Record(keys, w), k).Some? {
      FindInRecord(keys, v, k);
      FindInRecord(keys, w, k);
    }
  }

  /** Printed records agree exactly when their values are the same. */
  lemma RecordTexts(keys: List<string>, v: List<Json>, w: List<Json>)
    requires Length(keys) == Length(v) == Length(w) && Distinct(keys)
    requires WellFormedItems(v) && WellFormedItems(w)
    ensures Dumps(Utf16Order, JObject(Record(keys, v))) == Dumps(Utf16Order, JObject(Record(keys, w)))
       <==> SameItems(v, w)
  {
    hide Dumps, Record, Same;
    RecordWellFormed(keys, v);
    RecordWellFormed(keys, w);
    DumpsIffSame(Utf16Order, JObject(Record(keys, v)), JObject(Record(keys, w)));
    RecordsSame(keys, v, w);
  }

  // ---------------------------------------------------------------------------
  // Messages
  // ---------------------------------------------------------------------------

  /** The fields of a message that the signature covers; authTimestamp is JUndefined when auth has none. */
  datatype Message = Message(
    id: string, from: string, to: string, intent: string,
    payload: Json, context: Json, authTimestamp: Json, timestamp: Json)
  {
    predicate Valid() {
      WellFormed(payload) && WellFormed(context) && WellFormed(authTimestamp) && WellFormed(timestamp)
    }

    /** auth.timestamp ?? timestamp */
    function SignedTimestamp(): Json {
      if authTimestamp.JNull? || authTimestamp.JUndefined? then timestamp else authTimestamp
    }

    function Values(): List<Json> {
      Cons(JString(id), Cons(JString(from), Cons(JString(to), Cons(JString(intent),
      Cons(payload, Cons(context, Cons(SignedTimestamp(), Nil)))))))
    }
  }

  const MESSAGE_KEYS: List<string> :=
    Cons("id", Cons("from", Cons("to", Cons("intent", Cons("payload", Cons("context", Cons("timestamp", Nil)))))))

  function MessageBody(m: Message): string {
    Dumps(Utf16Order, JObject(Record(MESSAGE_KEYS, m.Values())))
  }

  ghost predicate SameMessage(m: Message, n: Message) {
    && m.id == n.id && m.from == n.from && m.to == n.to && m.intent == n.intent
    && Same(m.payload, n.payload) && Same(m.context, n.context)
    && Same(m.SignedTimestamp(), n.SignedTimestamp())
  }

  lemma ConsStep(h: Json, t: List<Json>, k: Json, u: List<Json>)
    ensures Length(Cons(h, t)) == 1 + Length(t)
    ensures WellFormedItems(Cons(h, t)) <==> WellFormed(h) && WellFormedItems(t)
    ensures SameItems(Cons(h, t), Cons(k, u)) <==> Same(h, k) && SameItems(t, u)
  {
  }

  lemma EmptyItems()
    ensures Length<Json>(Nil) == 0 && WellFormedItems(Nil) && SameItems(Nil, Nil)
  {
  }

  lemma TextsSame()
    ensures forall s, t :: Same(JString(s), JString(t)) <==> s == t
    ensures forall s :: WellFormed(JString(s))
    ensures forall b, c :: Same(JBool(b), JBool(c)) <==> b == c
    ensures forall b :: WellFormed(JBool(b))
  {
  }

  lemma MessageValues(m: Message, n: Message)
    requires m.Valid() && n.Valid()
    ensures Length(m.Values()) == 7 && WellFormedItems(m.Values())
    ensures SameItems(m.Values(), n.Values()) <==> SameMessage(m, n)
  {
    hide SameItems, WellFormedItems, Length, Same, WellFormed;
    EmptyItems();
    TextsSame();
    var x7, y7: List<Json> := Nil, Nil;
    var x6, y6 := Cons(m.SignedTimestamp(), x7), Cons(n.SignedTimestamp(), y7);
    ConsStep(m.SignedTimestamp(), x7, n.SignedTimestamp(), y7);
    var x5, y5 := Cons(m.context, x6), Cons(n.context, y6);
    ConsStep(m.context, x6, n.context, y6);
    var x4, y4 := Cons(m.payload, x5), Cons(n.payload, y5);
    ConsStep(m.payload, x5, n.payload, y5);
    var x3, y3 := Cons(JString(m.intent), x4), Cons(JString(n.intent), y4);
    ConsStep(JString(m.intent), x4, JString(n.intent), y4);
    var x2, y2 := Cons(JString(m.to), x3), Cons(JString(n.to), y3);
    ConsStep(JString(m.to), x3, JString(n.to), y3);
    var x1, y1 := Cons(JString(m.from), x2), Cons(JString(n.from), y2);
    ConsStep(JString(m.from), x2, JString(n.from), y2);
    var x0, y0 := Cons(JString(m.id), x1), Cons(JString(n.id), y1);
    ConsStep(JString(m.id), x1, JString(n.id), y1);
    assert m.Values() == x0 && n.Values() == y0;
  }

  lemma MessageKeys()
    ensures Length(MESSAGE_KEYS) == 7 && Distinct(MESSAGE_KEYS)
  {
    var k4 := MESSAGE_KEYS.tail.tail.tail.tail;
    assert k4 == Cons("payload", Cons("context", Cons("timestamp", Nil)));
    assert Length(k4) == 3 && Distinct(k4);
    var k2 := MESSAGE_KEYS.tail.tail;
    assert Length(k2) == 5;
    assert "payload"[0] == 'p' && "context"[0] == 'c' && "timestamp"[1] == 'i' && "intent"[1] == 'n' && "to"[1] == 'o';
    assert "id"[1] == 'd' && "from"[0] == 'f';
    assert !Contains(k4, "intent") && !Contains(k4, "to") && !Contains(k4, "from") && !Contains(k4, "id");
    assert Distinct(k2.tail) && !Contains(k2.tail, "to");
    assert Distinct(k2) && !Contains(k2, "from") && !Contains(k2, "id");
  }

  /** Two messages have the same signing body exactly when they agree in every signed field, payload and
      context up to key order. */
  lemma MessageBodyIff(m: Message, n: Message)
    requires m.Valid() && n.Valid()
    ensures MessageBody(m) == MessageBody(n) <==> SameMessage(m, n)
  {
    hide Dumps, Record, SameItems, WellFormedItems, Length, Distinct, Same;
    MessageKeys();
    MessageValues(m, n);
    MessageValues(n, m);
    RecordTexts(MESSAGE_KEYS, m.Values(), n.Values());
  }

  // ---------------------------------------------------------------------------
  // Delegation tokens
  // ---------------------------------------------------------------------------

  function InsertText(s: string, l: List<string>): List<string> {
    match l
    case Nil => Cons(s, Nil)
    case Cons(t, rest) => if Before(Utf16Order, t, s) then Cons(t, InsertText(s, rest)) else Cons(s, l)
  }

  /** [...capabilities].sort() */
  function SortTexts(l: List<string>): List<string> {
    match l
    case Nil => Nil
    case Cons(s, rest) => InsertText(s, SortTexts(rest))
  }

  function Occurrences(l: List<string>, s: string): nat {
    match l
    case Nil => 0
    case Cons(t, rest) => (if t == s then 1 else 0) + Occurrences(rest, s)
  }

  /** The same capabilities equally often, in any order. */
  ghost predicate SameCapabilities(a: List<string>, b: List<string>) {
    forall s :: Occurrences(a, s) == Occurrences(b, s)
  }

  predicate NotDescending(l: List<string>) {
    match l
    case Nil => true
    case Cons(s, rest) => (rest.Cons? ==> !Before(Utf16Order, rest.head, s)) && NotDescending(rest)
  }

  lemma {:induction false} InsertCounts(s: string, l: List<string>, t: string)
    ensures Occurrences(InsertText(s, l), t) == Occurrences(Cons(s, l), t)
  {
    hide Before;
    if l.Cons? && Before(Utf16Order, l.head, s) {
      InsertCounts(s, l.tail, t);
    }
  }

  lemma {:induction false} SortCounts(l: List<string>, t: string)
    ensures Occurrences(SortTexts(l), t) == Occurrences(l, t)
  {
    hide InsertText;
    if l.Cons? {
      SortCounts(l.tail, t);
      InsertCounts(l.head, SortTexts(l.tail), t);
    }
  }

  lemma {:induction false} InsertOrdered(s: string, l: List<string>)
    requires NotDescending(l)
    ensures NotDescending(InsertText(s, l))
  {
    hide Before;
    if l.Cons? {
      BeforeIsStrict(Utf16Order, l.head, s);
      if Before(Utf16Order, l.head, s) {
        InsertOrdered(s, l.tail);
      }
    }
  }

  lemma {:induction false} SortOrdered(l: List<string>)
    ensures NotDescending(SortTexts(l))
  {
    hide InsertText, Before;
    if l.Cons? {
      SortOrdered(l.tail);
      InsertOrdered(l.head, SortTexts(l.tail));
    }
  }

  lemma {:induction false} FirstIsLeast(l: List<string>, s: string)
    requires NotDescending(l) && Occurrences(l, s) > 0
    ensures l.Cons? && !Before(Utf16Order, s, l.head)
  {
    hide Before;
    BeforeIsStrict(Utf16Order, s, l.head);
    if l.head != s {
      FirstIsLeast(l.tail, s);
      NotBeforeTransitive(s, l.tail.head, l.head);
    }
  }

  lemma NotBeforeTransitive(s: string, t: string, u: string)
    requires !Before(Utf16Order, s, t) && !Before(Utf16Order, t, u)
    ensures !Before(Utf16Order, s, u)
  {
    hide Before;
    BeforeIsStrict(Utf16Order, s, t);
    BeforeIsStrict(Utf16Order, t, u);
    BeforeIsStrict(Utf16Order, s, u);
    if Before(Utf16Order, s, u) && u != t {
      BeforeTransitive(Utf16Order, s, u, t);
    }
  }

  lemma {:induction false} OrderedIsUnique(a: List<string>, b: List<string>)
    requires NotDescending(a) && NotDescending(b) && SameCapabilities(a, b)
    ensures a == b
  {
    hide Before;
    assert a.Cons? ==> Occurrences(b, a.head) > 0 by {
      assert a.Cons? ==> Occurrences(a, a.head) == Occurrences(b, a.head);
    }
    assert b.Cons? ==> Occurrences(a, b.head) > 0 by {
      assert b.Cons? ==> Occurrences(a, b.head) == Occurrences(b, b.head);
    }
    if a.Cons? {
      FirstIsLeast(b, a.head);
      FirstIsLeast(a, b.head);
      BeforeIsStrict(Utf16Order, a.head, b.head);
      forall s ensures Occurrences(a.tail, s) == Occurrences(b.tail, s) {
        assert Occurrences(a, s) == Occurrences(b, s);
      }
      OrderedIsUnique(a.tail, b.tail);
    }
  }

  lemma SortTextsIff(a: List<string>, b: List<string>)
    ensures SortTexts(a) == SortTexts(b) <==> SameCapabilities(a, b)
  {
    hide SortTexts;
    forall s
      ensures Occurrences(SortTexts(a), s) == Occurrences(a, s) && Occurrences(SortTexts(b), s) == Occurrences(b, s)
    {
      SortCounts(a, s);
      SortCounts(b, s);
    }
    SortOrdered(a);
    SortOrdered(b);
    if SameCapabilities(a, b) {
      OrderedIsUnique(SortTexts(a), SortTexts(b));
    }
  }

  /** The signed fields of a delegation token; the optional limits are JNull when absent. */
  datatype Token = Token(
    tokenId: string, delegatorDid: string, delegateDid: string, capabilities: List<string>,
    issuedAt: Json, expiresAt: Json, maxUses: Json, canRedelegate: bool)
  {
    predicate Valid() {
      WellFormed(issuedAt) && WellFormed(expiresAt) && WellFormed(maxUses)
    }

    function Values(): List<Json> {
      Cons(JString(tokenId), Cons(JString(delegatorDid), Cons(JString(delegateDid),
      Cons(JArray(Strings(SortTexts(capabilities))), Cons(issuedAt, Cons(expiresAt, Cons(maxUses,
      Cons(JBool(canRedelegate), Nil))))))))
    }
  }

  function Strings(l: List<string>): List<Json> {
    match l
    case Nil => Nil
    case Cons(s, rest) => Cons(JString(s), Strings(rest))
  }

  const TOKEN_KEYS: List<string> :=
    Cons("token_id", Cons("delegator_did", Cons("delegate_did", Cons("capabilities",
    Cons("issued_at", Cons("expires_at", Cons("max_uses", Cons("can_redelegate", Nil))))))))

  function TokenBody(t: Token): string {
    Dumps(Utf16Order, JObject(Record(TOKEN_KEYS, t.Values())))
  }

  lemma {:induction false} StringsSame(a: List<string>, b: List<string>)
    ensures SameItems(Strings(a), Strings(b)) <==> a == b
    ensures WellFormedItems(Strings(a))
  {
    if a.Cons? {
      StringsSame(a.tail, if b.Cons? then b.tail else Nil);
    }
  }

  ghost predicate SameToken(t: Token, u: Token) {
    && t.tokenId == u.tokenId && t.delegatorDid == u.delegatorDid && t.delegateDid == u.delegateDid
    && SameCapabilities(t.capabilities, u.capabilities)
    && Same(t.issuedAt, u.issuedAt) && Same(t.expiresAt, u.expiresAt) && Same(t.maxUses, u.maxUses)
    && t.canRedelegate == u.canRedelegate
  }

  lemma ArraysSame(a: List<string>, b: List<string>)
    ensures Same(JArray(Strings(a)), JArray(Strings(b))) <==> a == b
    ensures WellFormed(JArray(Strings(a)))
  {
    StringsSame(a, b);
  }

  lemma TokenValues(t: Token, u: Token)
    requires t.Valid() && u.Valid()
    ensures Length(t.Values()) == 8 && WellFormedItems(t.Values())
    ensures SameItems(t.Values(), u.Values()) <==> SameToken(t, u)
  {
    hide SortTexts, SameCapabilities;
    SortTextsIff(t.capabilities, u.capabilities);
    ArraysSame(SortTexts(t.capabilities), SortTexts(u.capabilities));
    hide SameItems, WellFormedItems, Length, Same, WellFormed;
    EmptyItems();
    TextsSame();
    var x8, y8: List<Json> := Nil, Nil;
    var x7, y7 := Cons(JBool(t.canRedelegate), x8), Cons(JBool(u.canRedelegate), y8);
    ConsStep(JBool(t.canRedelegate), x8, JBool(u.canRedelegate), y8);
    var x6, y6 := Cons(t.maxUses, x7), Cons(u.maxUses, y7);
    ConsStep(t.maxUses, x7, u.maxUses, y7);
    var x5, y5 := Cons(t.expiresAt, x6), Cons(u.expiresAt, y6);
    ConsStep(t.expiresAt, x6, u.expiresAt, y6);
    var x4, y4 := Cons(t.issuedAt, x5), Cons(u.issuedAt, y5);
    ConsStep(t.issuedAt, x5, u.issuedAt, y5);
    var x3 := Cons(JArray(Strings(SortTexts(t.capabilities))), x4);
    var y3 := Cons(JArray(Strings(SortTexts(u.capabilities))), y4);
    ConsStep(JArray(Strings(SortTexts(t.capabilities))), x4, JArray(Strings(SortTexts(u.capabilities))), y4);
    var x2, y2 := Cons(JString(t.delegateDid), x3), Cons(JString(u.delegateDid), y3);
    ConsStep(JString(t.delegateDid), x3, JString(u.delegateDid), y3);
    var x1, y1 := Cons(JString(t.delegatorDid), x2), Cons(JString(u.delegatorDid), y2);
    ConsStep(JString(t.delegatorDid), x2, JString(u.delegatorDid), y2);
    var x0, y0 := Cons(JString(t.tokenId), x1), Cons(JString(u.tokenId), y1);
    ConsStep(JString(t.tokenId), x1, JString(u.tokenId), y1);
    assert t.Values() == x0 && u.Values() == y0;
  }

  lemma TokenKeys()
    ensures Length(TOKEN_KEYS) == 8 && Distinct(TOKEN_KEYS)
  {
    var k2 := TOKEN_KEYS.tail.tail;
    var k4 := k2.tail.tail;
    var k6 := k4.tail.tail;
    assert k6 == Cons("max_uses", Cons("can_redelegate", Nil));
    assert "token_id"[0] == 't' && "delegator_did"[7] == 'o' && "delegate_did"[7] == 'e' && "capabilities"[2] == 'p';
    assert "issued_at"[0] == 'i' && "expires_at"[0] == 'e' && "max_uses"[0] == 'm' && "can_redelegate"[2] == 'n';
    assert "delegator_did"[0] == 'd' && "delegate_did"[0] == 'd';
    assert "capabilities"[0] == 'c' && "can_redelegate"[0] == 'c';
    assert Length(k6) == 2 && Distinct(k6);
    assert !Contains(k6, "expires_at") && !Contains(k6, "issued_at") && !Contains(k6, "capabilities");
    assert !Contains(k6, "delegate_did") && !Contains(k6, "delegator_did") && !Contains(k6, "token_id");
    assert Length(k4) == 4 && Distinct(k4);
    assert !Contains(k4, "capabilities") && !Contains(k4, "delegate_did");
    assert !Contains(k4, "delegator_did") && !Contains(k4, "token_id");
    assert Length(k2) == 6 && Distinct(k2);
    assert !Contains(k2, "delegator_did") && !Contains(k2, "token_id");
  }

  /** Two tokens have the same signing body exactly when they agree in every signed field, capabilities
      up to order: use_count and signature are not covered, everything else is. */
  lemma TokenBodyIff(t: Token, u: Token)
    requires t.Valid() && u.Valid()
    ensures TokenBody(t) == TokenBody(u) <==> SameToken(t, u)
  {
    hide Dumps, Record, SameItems, WellFormedItems, Length, Distinct, Same, SameCapabilities;
    TokenKeys();
    TokenValues(t, u);
    TokenValues(u, t);
    RecordTexts(TOKEN_KEYS, t.Values(), u.Values());
  }
}
