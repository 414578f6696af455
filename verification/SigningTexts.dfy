/** The signing bodies as texts: every field in its place, for all messages and all tokens. */
module SigningTexts {
  import opened TextOrder
  import opened Entries
  import opened CanonicalJson
  import opened SigningBodies

  // ---------------------------------------------------------------------------
  // The order of the field names
  // ---------------------------------------------------------------------------

  /** Two names that part at character i. */
  lemma NamesPart(o: KeyOrder, s: string, t: string, i: nat)
    requires i < |s| && i < |t| && s[..i] == t[..i] && s[i] as int < t[i] as int < 0xD800
    ensures Before(o, s, t) && !Before(o, t, s)
  {
    hide Before;
    BeforeIs(o, s[..i], s[i..], t[i..]);
    assert s[..i] + s[i..] == s && s[..i] + t[i..] == t;
    BeforeIsStrict(o, s, t);
  }

  lemma InsertStep<V>(o: KeyOrder, e: Entry<V>, f: Entry<V>, rest: List<Entry<V>>)
    ensures Before(o, f.key, e.key) ==> Insert(o, e, Cons(f, rest)) == Cons(f, Insert(o, e, rest))
    ensures !Before(o, f.key, e.key) ==> Insert(o, e, Cons(f, rest)) == Cons(e, Cons(f, rest))
    ensures Insert(o, e, Nil) == Cons(e, Nil)
  {
    hide Before;
  }

  lemma SortStep<V>(o: KeyOrder, e: Entry<V>, rest: List<Entry<V>>)
    ensures SortEntries(o, Cons(e, rest)) == Insert(o, e, SortEntries(o, rest)) && SortEntries<V>(o, Nil) == Nil
  {
    hide Insert;
  }

  lemma MessageNames(o: KeyOrder)
    ensures Before(o, "context", "timestamp") && Before(o, "context", "payload") && Before(o, "context", "intent")
    ensures Before(o, "context", "to") && Before(o, "context", "from") && Before(o, "context", "id")
    ensures !Before(o, "timestamp", "context") && !Before(o, "timestamp", "payload")
    ensures !Before(o, "payload", "intent") && !Before(o, "intent", "from") && !Before(o, "intent", "id")
    ensures Before(o, "intent", "to") && Before(o, "payload", "to") && Before(o, "timestamp", "to")
    ensures Before(o, "from", "id")
  {
    hide Before;
    NamesPart(o, "context", "timestamp", 0);
    NamesPart(o, "context", "payload", 0);
    NamesPart(o, "context", "intent", 0);
    NamesPart(o, "context", "to", 0);
    NamesPart(o, "context", "from", 0);
    NamesPart(o, "context", "id", 0);
    NamesPart(o, "payload", "timestamp", 0);
    NamesPart(o, "intent", "payload", 0);
    NamesPart(o, "from", "intent", 0);
    NamesPart(o, "id", "intent", 1);
    NamesPart(o, "intent", "to", 0);
    NamesPart(o, "payload", "to", 0);
    NamesPart(o, "timestamp", "to", 1);
    NamesPart(o, "from", "id", 0);
  }

  lemma MessageSorted(o: KeyOrder, id: string, from: string, to: string, intent: string, payload: string,
                      context: string, timestamp: string)
    ensures
      SortEntries(o, Cons(Entry("id", id), Cons(Entry("from", from), Cons(Entry("to", to),
                     Cons(Entry("intent", intent), Cons(Entry("payload", payload), Cons(Entry("context", context),
                     Cons(Entry("timestamp", timestamp), Nil)))))))) ==
      Cons(Entry("context", context), Cons(Entry("from", from), Cons(Entry("id", id), Cons(Entry("intent", intent),
      Cons(Entry("payload", payload), Cons(Entry("timestamp", timestamp), Cons(Entry("to", to), Nil)))))))
  {
    MessageNames(o);
    hide Before, Insert, SortEntries;
    var eId, eFrom, eTo, eIntent := Entry("id", id), Entry("from", from), Entry("to", to), Entry("intent", intent);
    var ePayload, eContext := Entry("payload", payload), Entry("context", context);
    var eTime := Entry("timestamp", timestamp);
    var l7 := Cons(eTime, Nil);
    SortStep(o, eTime, Nil);
    InsertStep(o, eTime, eTime, Nil);
    assert SortEntries(o, l7) == l7;
    var l6, s6 := Cons(eContext, l7), Cons(eContext, l7);
    SortStep(o, eContext, l7);
    InsertStep(o, eContext, eTime, Nil);
    assert SortEntries(o, l6) == s6;
    var l5, s5 := Cons(ePayload, l6), Cons(eContext, Cons(ePayload, l7));
    SortStep(o, ePayload, l6);
    InsertStep(o, ePayload, eContext, l7);
    InsertStep(o, ePayload, eTime, Nil);
    assert SortEntries(o, l5) == s5;
    var l4, s4 := Cons(eIntent, l5), Cons(eContext, Cons(eIntent, Cons(ePayload, l7)));
    SortStep(o, eIntent, l5);
    InsertStep(o, eIntent, eContext, Cons(ePayload, l7));
    InsertStep(o, eIntent, ePayload, l7);
    assert SortEntries(o, l4) == s4;
    var t7 := Cons(eTime, Cons(eTo, Nil));
    var l3, s3 := Cons(eTo, l4), Cons(eContext, Cons(eIntent, Cons(ePayload, t7)));
    SortStep(o, eTo, l4);
    InsertStep(o, eTo, eContext, Cons(eIntent, Cons(ePayload, l7)));
    InsertStep(o, eTo, eIntent, Cons(ePayload, l7));
    InsertStep(o, eTo, ePayload, l7);
    InsertStep(o, eTo, eTime, Nil);
    assert SortEntries(o, l3) == s3;
    var t5 := Cons(eIntent, Cons(ePayload, t7));
    var l2, s2 := Cons(eFrom, l3), Cons(eContext, Cons(eFrom, t5));
    SortStep(o, eFrom, l3);
    InsertStep(o, eFrom, eContext, t5);
    InsertStep(o, eFrom, eIntent, Cons(ePayload, t7));
    assert SortEntries(o, l2) == s2;
    SortStep(o, eId, l2);
    InsertStep(o, eId, eContext, Cons(eFrom, t5));
    InsertStep(o, eId, eFrom, t5);
    InsertStep(o, eId, eIntent, Cons(ePayload, t7));
  }

  // ---------------------------------------------------------------------------
  // The texts
  // ---------------------------------------------------------------------------

  /** Names of small letters and underscores stand as they are. */
  lemma {:induction false} PlainName(s: string)
    requires forall i :: 0 <= i < |s| ==> 'a' <= s[i] <= 'z' || s[i] == '_'
    ensures Escape(s) == s
  {
    if s != "" {
      PlainName(s[1..]);
      assert s == [s[0]] + s[1..];
    }
  }

  lemma QuotedName(s: string, quoted: string)
    requires forall i :: 0 <= i < |s| ==> 'a' <= s[i] <= 'z' || s[i] == '_'
    requires quoted == "\"" + s + "\""
    ensures Quote(s) == quoted
  {
    hide Escape;
    PlainName(s);
  }

  lemma QuotedNames()
    ensures Quote("context") == "\"context\""
    ensures Quote("from") == "\"from\""
    ensures Quote("id") == "\"id\""
    ensures Quote("intent") == "\"intent\""
    ensures Quote("payload") == "\"payload\""
    ensures Quote("timestamp") == "\"timestamp\""
    ensures Quote("to") == "\"to\""
  {
    hide Quote, Escape;
    QuotedName("context", "\"context\"");
    QuotedName("from", "\"from\"");
    QuotedName("id", "\"id\"");
    QuotedName("intent", "\"intent\"");
    QuotedName("payload", "\"payload\"");
    QuotedName("timestamp", "\"timestamp\"");
    QuotedName("to", "\"to\"");
  }

  lemma PairsStep(e: Entry<string>, rest: List<Entry<string>>)
    ensures Pairs(Cons(e, rest)) == Cons(Quote(e.key) + ": " + e.value, Pairs(rest)) && Pairs(Nil) == Nil
    ensures Pairs(rest).Nil? <==> rest.Nil?
  {
  }

  lemma JoinStep(t: string, rest: List<string>)
    ensures Join(Cons(t, rest)) == if rest.Nil? then t else t + ", " + Join(rest)
  {
  }

  /** One more member in front. */
  lemma MemberText(name: string, quoted: string, value: string, rest: List<Entry<string>>)
    requires Quote(name) == quoted
    ensures Join(Pairs(Cons(Entry(name, value), rest))) ==
            if rest.Nil? then quoted + ": " + value else quoted + ": " + value + ", " + Join(Pairs(rest))
  {
    hide Quote, Join, Pairs;
    PairsStep(Entry(name, value), rest);
    JoinStep(quoted + ": " + value, Pairs(rest));
  }

  /** The text signed for a message: its seven fields by name, in this order, each as it is printed. */
  lemma MessageTextIs(m: Message)
    ensures MessageBody(m) ==
            "{" + ("\"context\"" + ": " + Dumps(Utf16Order, m.context) + ", " +
            ("\"from\"" + ": " + Quote(m.from) + ", " +
            ("\"id\"" + ": " + Quote(m.id) + ", " +
            ("\"intent\"" + ": " + Quote(m.intent) + ", " +
            ("\"payload\"" + ": " + Dumps(Utf16Order, m.payload) + ", " +
            ("\"timestamp\"" + ": " + Dumps(Utf16Order, if m.authTimestamp == JNull || m.authTimestamp == JUndefined
                                                        then m.timestamp else m.authTimestamp) + ", " +
            ("\"to\"" + ": " + Quote(m.to)))))))) + "}"
  {
    var o := Utf16Order;
    var stamp := if m.authTimestamp == JNull || m.authTimestamp == JUndefined then m.timestamp else m.authTimestamp;
    var context, payload, timestamp := Dumps(o, m.context), Dumps(o, m.payload), Dumps(o, stamp);
    MessageMembers(m);
    hide Dumps, Before, SortEntries, Quote, Join, Pairs, Record, DumpMembers;
    MessageSorted(o, Quote(m.id), Quote(m.from), Quote(m.to), Quote(m.intent), payload, context, timestamp);
    QuotedNames();
    var t7 := Cons(Entry("to", Quote(m.to)), Nil);
    var t6 := Cons(Entry("timestamp", timestamp), t7);
    var t5 := Cons(Entry("payload", payload), t6);
    var t4 := Cons(Entry("intent", Quote(m.intent)), t5);
    var t3 := Cons(Entry("id", Quote(m.id)), t4);
    var t2 := Cons(Entry("from", Quote(m.from)), t3);
    MemberText("to", "\"to\"", Quote(m.to), Nil);
    MemberText("timestamp", "\"timestamp\"", timestamp, t7);
    MemberText("payload", "\"payload\"", payload, t6);
    MemberText("intent", "\"intent\"", Quote(m.intent), t5);
    MemberText("id", "\"id\"", Quote(m.id), t4);
    MemberText("from", "\"from\"", Quote(m.from), t3);
    MemberText("context", "\"context\"", context, t2);
  }

  lemma DumpMembersStep(o: KeyOrder, k: string, j: Json, rest: List<Entry<Json>>)
    ensures DumpMembers(o, Cons(Entry(k, j), rest)) == Cons(Entry(k, Dumps(o, j)), DumpMembers(o, rest))
    ensures DumpMembers(o, Nil) == Nil
  {
  }

  lemma StringDumps(o: KeyOrder, s: string)
    ensures Dumps(o, JString(s)) == Quote(s)
  {
  }

  lemma ObjectDumps(o: KeyOrder, members: List<Entry<Json>>)
    ensures members.Cons? ==>
              Dumps(o, JObject(members)) == "{" + Join(Pairs(SortEntries(o, DumpMembers(o, members)))) + "}"
  {
  }

  lemma RecordStep(k: string, keys: List<string>, j: Json, values: List<Json>)
    ensures Record(Cons(k, keys), Cons(j, values)) == Cons(Entry(k, j), Record(keys, values))
    ensures Record(Nil, Nil) == Nil
  {
  }

  lemma MessageMembers(m: Message)
    ensures
      var stamp := if m.authTimestamp == JNull || m.authTimestamp == JUndefined then m.timestamp else m.authTimestamp;
      MessageBody(m) ==
      "{" + Join(Pairs(SortEntries(Utf16Order,
        Cons(Entry("id", Quote(m.id)), Cons(Entry("from", Quote(m.from)), Cons(Entry("to", Quote(m.to)),
        Cons(Entry("intent", Quote(m.intent)), Cons(Entry("payload", Dumps(Utf16Order, m.payload)),
        Cons(Entry("context", Dumps(Utf16Order, m.context)),
        Cons(Entry("timestamp", Dumps(Utf16Order, stamp)), Nil)))))))))) + "}"
  {
    var o := Utf16Order;
    var stamp := m.SignedTimestamp();
    hide Dumps, Before, SortEntries, Quote, Join, Pairs, Record, DumpMembers;
    RecordStep("timestamp", Nil, stamp, Nil);
    DumpMembersStep(o, "timestamp", stamp, Nil);
    var l7 := Cons(Entry("timestamp", stamp), Nil);
    var k7, v7 := Cons("timestamp", Nil), Cons(stamp, Nil);
    RecordStep("context", k7, m.context, v7);
    DumpMembersStep(o, "context", m.context, l7);
    var l6, k6, v6 := Cons(Entry("context", m.context), l7), Cons("context", k7), Cons(m.context, v7);
    RecordStep("payload", k6, m.payload, v6);
    DumpMembersStep(o, "payload", m.payload, l6);
    var l5, k5, v5 := Cons(Entry("payload", m.payload), l6), Cons("payload", k6), Cons(m.payload, v6);
    RecordStep("intent", k5, JString(m.intent), v5);
    DumpMembersStep(o, "intent", JString(m.intent), l5);
    StringDumps(o, m.intent);
    var l4, k4, v4 := Cons(Entry("intent", JString(m.intent)), l5), Cons("intent", k5), Cons(JString(m.intent), v5);
    RecordStep("to", k4, JString(m.to), v4);
    DumpMembersStep(o, "to", JString(m.to), l4);
    StringDumps(o, m.to);
    var l3, k3, v3 := Cons(Entry("to", JString(m.to)), l4), Cons("to", k4), Cons(JString(m.to), v4);
    RecordStep("from", k3, JString(m.from), v3);
    DumpMembersStep(o, "from", JString(m.from), l3);
    StringDumps(o, m.from);
    var l2, k2, v2 := Cons(Entry("from", JString(m.from)), l3), Cons("from", k3), Cons(JString(m.from), v3);
    RecordStep("id", k2, JString(m.id), v2);
    DumpMembersStep(o, "id", JString(m.id), l2);
    StringDumps(o, m.id);
    ObjectDumps(o, Cons(Entry("id", JString(m.id)), l2));
    assert MESSAGE_KEYS == Cons("id", k2) && m.Values() == Cons(JString(m.id), v2);
  }

  // ---------------------------------------------------------------------------
  // Values
  // ---------------------------------------------------------------------------

  /** What a value is printed as, by its kind: an array one item after the other, in their order. */
  lemma ValueTextIs(o: KeyOrder, j: Json)
    ensures j in {JNull, JUndefined, JNonFinite} ==> Dumps(o, j) == "null"
    ensures j.JBool? ==> Dumps(o, j) == if j.b then "true" else "false"
    ensures j.JNumber? ==> Dumps(o, j) == if j.integer then j.text + ".0" else j.text
    ensures j.JString? ==> Dumps(o, j) == "\"" + Escape(j.s) + "\""
    ensures j == JArray(Nil) ==> Dumps(o, j) == "[]"
    ensures j == JObject(Nil) ==> Dumps(o, j) == "{}"
    ensures j.JArray? && j.items.Cons? ==>
              var first, rest := Dumps(o, j.items.head), j.items.tail;
              Dumps(o, j) == if rest.Nil? then "[" + first + "]" else "[" + first + ", " + Dumps(o, JArray(rest))[1..]
  {
    if j.JArray? && j.items.Cons? {
      ArrayTextIs(o, j.items.head, j.items.tail);
    }
  }

  lemma ArrayTextIs(o: KeyOrder, j: Json, rest: List<Json>)
    ensures var first := Dumps(o, j);
      Dumps(o, JArray(Cons(j, rest))) ==
      if rest.Nil? then "[" + first + "]" else "[" + first + ", " + Dumps(o, JArray(rest))[1..]
  {
    JoinStep(Dumps(o, j), DumpItems(o, rest));
    ItemsStep(o, j, rest);
    hide Dumps, DumpItems, Join;
    if rest.Cons? {
      ItemsStep(o, rest.head, rest.tail);
      Brackets(Dumps(o, j), Join(DumpItems(o, rest)));
    }
  }

  lemma ItemsStep(o: KeyOrder, j: Json, rest: List<Json>)
    ensures DumpItems(o, Cons(j, rest)) == Cons(Dumps(o, j), DumpItems(o, rest))
    ensures Dumps(o, JArray(Cons(j, rest))) == "[" + Join(DumpItems(o, Cons(j, rest))) + "]"
    ensures DumpItems(o, rest).Nil? <==> rest.Nil?
  {
    hide Join;
  }

  lemma Brackets(first: string, rest: string)
    ensures "[" + (first + ", " + rest) + "]" == "[" + first + ", " + ("[" + rest + "]")[1..]
  {
    assert ("[" + rest + "]")[1..] == rest + "]";
  }

  // ---------------------------------------------------------------------------
  // Tokens
  // ---------------------------------------------------------------------------

  function CapabilitiesText(t: Token): string {
    Dumps(Utf16Order, JArray(Strings(SortTexts(t.capabilities))))
  }

  lemma BoolDumps(o: KeyOrder, b: bool)
    ensures Dumps(o, JBool(b)) == if b then "true" else "false"
  {
  }

  /** The text signed for a token: its eight fields, sorted by their names. */
  lemma TokenTextIs(t: Token)
    ensures TokenBody(t) ==
      "{" + Join(Pairs(SortEntries(Utf16Order,
        Cons(Entry("token_id", Quote(t.tokenId)),
        Cons(Entry("delegator_did", Quote(t.delegatorDid)),
        Cons(Entry("delegate_did", Quote(t.delegateDid)),
        Cons(Entry("capabilities", CapabilitiesText(t)),
        Cons(Entry("issued_at", Dumps(Utf16Order, t.issuedAt)),
        Cons(Entry("expires_at", Dumps(Utf16Order, t.expiresAt)),
        Cons(Entry("max_uses", Dumps(Utf16Order, t.maxUses)),
        Cons(Entry("can_redelegate", if t.canRedelegate then "true" else "false"),
        Nil))))))))))) + "}"
  {
    var o := Utf16Order;
    hide Dumps, Before, SortEntries, Quote, Join, Pairs, Record, DumpMembers, SortTexts, Strings;
    StringDumps(o, t.tokenId);
    StringDumps(o, t.delegatorDid);
    StringDumps(o, t.delegateDid);
    BoolDumps(o, t.canRedelegate);
    RecordStep("can_redelegate", Nil, JBool(t.canRedelegate), Nil);
    DumpMembersStep(o, "can_redelegate", JBool(t.canRedelegate), Nil);
    var k1, v1 := Cons("can_redelegate", Nil), Cons(JBool(t.canRedelegate), Nil);
    var l1 := Cons(Entry("can_redelegate", JBool(t.canRedelegate)), Nil);
    RecordStep("max_uses", k1, t.maxUses, v1);
    DumpMembersStep(o, "max_uses", t.maxUses, l1);
    var k2, v2 := Cons("max_uses", k1), Cons(t.maxUses, v1);
    var l2 := Cons(Entry("max_uses", t.maxUses), l1);
    RecordStep("expires_at", k2, t.expiresAt, v2);
    DumpMembersStep(o, "expires_at", t.expiresAt, l2);
    var k3, v3 := Cons("expires_at", k2), Cons(t.expiresAt, v2);
    var l3 := Cons(Entry("expires_at", t.expiresAt), l2);
    RecordStep("issued_at", k3, t.issuedAt, v3);
    DumpMembersStep(o, "issued_at", t.issuedAt, l3);
    var k4, v4 := Cons("issued_at", k3), Cons(t.issuedAt, v3);
    var l4 := Cons(Entry("issued_at", t.issuedAt), l3);
    RecordStep("capabilities", k4, JArray(Strings(SortTexts(t.capabilities))), v4);
    DumpMembersStep(o, "capabilities", JArray(Strings(SortTexts(t.capabilities))), l4);
    var k5, v5 := Cons("capabilities", k4), Cons(JArray(Strings(SortTexts(t.capabilities))), v4);
    var l5 := Cons(Entry("capabilities", JArray(Strings(SortTexts(t.capabilities)))), l4);
    RecordStep("delegate_did", k5, JString(t.delegateDid), v5);
    DumpMembersStep(o, "delegate_did", JString(t.delegateDid), l5);
    var k6, v6 := Cons("delegate_did", k5), Cons(JString(t.delegateDid), v5);
    var l6 := Cons(Entry("delegate_did", JString(t.delegateDid)), l5);
    RecordStep("delegator_did", k6, JString(t.delegatorDid), v6);
    DumpMembersStep(o, "delegator_did", JString(t.delegatorDid), l6);
    var k7, v7 := Cons("delegator_did", k6), Cons(JString(t.delegatorDid), v6);
    var l7 := Cons(Entry("delegator_did", JString(t.delegatorDid)), l6);
    RecordStep("token_id", k7, JString(t.tokenId), v7);
    DumpMembersStep(o, "token_id", JString(t.tokenId), l7);
    var k8, v8 := Cons("token_id", k7), Cons(JString(t.tokenId), v7);
    var l8 := Cons(Entry("token_id", JString(t.tokenId)), l7);
    ObjectDumps(o, l8);
    assert TOKEN_KEYS == k8 && t.Values() == v8;
  }
}
