/** What equal canonical texts say about the trees, and when the Rust form prints the same text. */
module JsonTheorems {
  import opened Wrappers
  import opened TextOrder
  import opened Entries
  import opened CanonicalJson
  import opened JsonInjective

  /** What the printer is given: number texts are texts of numbers, an object has no key twice. */
  predicate WellFormed(j: Json) {
    match j
    case JNumber(integer, text) => NumberText(integer, text)
    case JArray(items) => WellFormedItems(items)
    case JObject(members) => DistinctKeys(members) && WellFormedMembers(members)
    case _ => true
  }

  predicate WellFormedItems(items: List<Json>) {
    match items
    case Nil => true
    case Cons(j, rest) => WellFormed(j) && WellFormedItems(rest)
  }

  predicate WellFormedMembers(members: List<Entry<Json>>) {
    match members
    case Nil => true
    case Cons(m, rest) => WellFormed(m.value) && WellFormedMembers(rest)
  }

  predicate PrintsNull(j: Json) {
    j.JNull? || j.JUndefined? || j.JNonFinite?
  }

  /** The same tree up to the order of object members, with everything that prints as null identified. */
  ghost predicate Same(a: Json, b: Json) {
    if PrintsNull(a) then PrintsNull(b)
    else
      match a
      case JArray(items) => b.JArray? && SameItems(items, b.items)
      case JObject(members) => b.JObject? && SameMembers(members, b.members) && HasNoOther(members, b.members)
      case _ => a == b
  }

  ghost predicate SameItems(a: List<Json>, b: List<Json>) {
    match a
    case Nil => b.Nil?
    case Cons(j, rest) => b.Cons? && Same(j, b.head) && SameItems(rest, b.tail)
  }

  /** Every member of a has a counterpart of the same key in b. */
  ghost predicate SameMembers(a: List<Entry<Json>>, b: List<Entry<Json>>) {
    match a
    case Nil => true
    case Cons(m, rest) => Find(b, m.key).Some? && Same(m.value, Find(b, m.key).value) && SameMembers(rest, b)
  }

  ghost predicate HasNoOther(a: List<Entry<Json>>, b: List<Entry<Json>>) {
    forall k :: Find(b, k).Some? ==> Find(a, k).Some?
  }

  // ---------------------------------------------------------------------------
  // Canonical trees
  // ---------------------------------------------------------------------------

  lemma {:induction false} InsertPlain(o: KeyOrder, m: Entry<Json>, members: List<Entry<Json>>)
    requires Plain(m.value) && PlainMembers(members)
    ensures PlainMembers(Insert(o, m, members))
  {
    hide Before, Plain;
    if members.Cons? && Before(o, members.head.key, m.key) {
      InsertPlain(o, m, members.tail);
    }
  }

  lemma {:induction false} SortPlain(o: KeyOrder, members: List<Entry<Json>>)
    requires PlainMembers(members)
    ensures PlainMembers(SortEntries(o, members))
  {
    hide Before, Plain, Insert;
    if members.Cons? {
      SortPlain(o, members.tail);
      InsertPlain(o, members.head, SortEntries(o, members.tail));
    }
  }

  lemma {:induction false} CanonIsPlain(o: KeyOrder, j: Json)
    requires WellFormed(j)
    ensures Plain(Canon(o, j))
  {
    hide SortEntries;
    match j {
      case JArray(items) => CanonItemsPlain(o, items);
      case JObject(members) =>
        CanonMembersPlain(o, members);
        SortPlain(o, CanonMembers(o, members));
      case _ =>
    }
  }

  lemma {:induction false} CanonItemsPlain(o: KeyOrder, items: List<Json>)
    requires WellFormedItems(items)
    ensures PlainItems(CanonItems(o, items))
  {
    if items.Cons? {
      CanonIsPlain(o, items.head);
      CanonItemsPlain(o, items.tail);
    }
  }

  lemma {:induction false} CanonMembersPlain(o: KeyOrder, members: List<Entry<Json>>)
    requires WellFormedMembers(members)
    ensures PlainMembers(CanonMembers(o, members))
  {
    if members.Cons? {
      CanonIsPlain(o, members.head.value);
      CanonMembersPlain(o, members.tail);
    }
  }

  lemma {:induction false} FindCanon(o: KeyOrder, members: List<Entry<Json>>, k: string)
    ensures Find(CanonMembers(o, members), k) ==
      match Find(members, k) case None => None case Some(j) => Some(Canon(o, j))
  {
    hide Canon;
    if members.Cons? {
      FindCanon(o, members.tail, k);
    }
  }

  lemma {:induction false} CanonDistinct(o: KeyOrder, members: List<Entry<Json>>)
    requires DistinctKeys(members)
    ensures DistinctKeys(CanonMembers(o, members))
  {
    hide Canon;
    if members.Cons? {
      FindCanon(o, members.tail, members.head.key);
      CanonDistinct(o, members.tail);
    }
  }

  // ---------------------------------------------------------------------------
  // Same tree, same canonical tree
  // ---------------------------------------------------------------------------

  lemma {:induction false} CanonIffSame(o: KeyOrder, a: Json, b: Json)
    requires WellFormed(a) && WellFormed(b)
    ensures Canon(o, a) == Canon(o, b) <==> Same(a, b)
    decreases a
  {
    hide SortEntries;
    if a.JArray? && b.JArray? {
      CanonItemsIffSame(o, a.items, b.items);
    } else if a.JObject? && b.JObject? {
      CanonMembersIffSame(o, a.members, b.members);
      CanonDistinct(o, a.members);
      CanonDistinct(o, b.members);
      SortIsCanonical(o, CanonMembers(o, a.members), CanonMembers(o, b.members));
    }
  }

  lemma {:induction false} CanonItemsIffSame(o: KeyOrder, a: List<Json>, b: List<Json>)
    requires WellFormedItems(a) && WellFormedItems(b)
    ensures CanonItems(o, a) == CanonItems(o, b) <==> SameItems(a, b)
    decreases a
  {
    if a.Cons? && b.Cons? {
      CanonIffSame(o, a.head, b.head);
      CanonItemsIffSame(o, a.tail, b.tail);
    }
  }

  lemma {:induction false} FoundIsWellFormed(members: List<Entry<Json>>, k: string)
    requires WellFormedMembers(members) && Find(members, k).Some?
    ensures WellFormed(Find(members, k).value)
  {
    if members.head.key != k {
      FoundIsWellFormed(members.tail, k);
    }
  }

  /** Every member of a has an equal counterpart once both are canonical. */
  ghost predicate CanonIncluded(o: KeyOrder, a: List<Entry<Json>>, b: List<Entry<Json>>) {
    forall k :: Find(a, k).Some? ==> Find(CanonMembers(o, a), k) == Find(CanonMembers(o, b), k)
  }

  lemma {:induction false} IncludedIffSame(o: KeyOrder, a: List<Entry<Json>>, b: List<Entry<Json>>)
    requires DistinctKeys(a) && WellFormedMembers(a) && WellFormedMembers(b)
    ensures CanonIncluded(o, a, b) <==> SameMembers(a, b)
    decreases a, 0
  {
    hide Canon;
    if a.Cons? {
      var m := a.head;
      IncludedIffSame(o, a.tail, b);
      FindCanon(o, b, m.key);
      if Find(b, m.key).Some? {
        FoundIsWellFormed(b, m.key);
        CanonIffSame(o, m.value, Find(b, m.key).value);
      }
      assert Find(CanonMembers(o, a), m.key) == Some(Canon(o, m.value));
      forall k | k != m.key ensures Find(a, k) == Find(a.tail, k)
                            ensures Find(CanonMembers(o, a), k) == Find(CanonMembers(o, a.tail), k) {
      }
      assert CanonIncluded(o, a, b) ==>
          Find(CanonMembers(o, a), m.key) == Find(CanonMembers(o, b), m.key);
      if CanonIncluded(o, a, b) {
        forall k | Find(a.tail, k).Some? ensures Find(CanonMembers(o, a.tail), k) == Find(CanonMembers(o, b), k) {
          assert k != m.key;
          assert Find(a, k).Some?;
        }
      }
    }
  }

  lemma CanonMembersIffSame(o: KeyOrder, a: List<Entry<Json>>, b: List<Entry<Json>>)
    requires DistinctKeys(a) && DistinctKeys(b) && WellFormedMembers(a) && WellFormedMembers(b)
    ensures SameEntries(CanonMembers(o, a), CanonMembers(o, b)) <==> SameMembers(a, b) && HasNoOther(a, b)
    decreases a, 1
  {
    hide Canon, CanonMembers, SameMembers;
    IncludedIffSame(o, a, b);
    forall k ensures Find(CanonMembers(o, a), k).Some? == Find(a, k).Some?
             ensures Find(CanonMembers(o, b), k).Some? == Find(b, k).Some? {
      FindCanon(o, a, k);
      FindCanon(o, b, k);
    }
    if SameEntries(CanonMembers(o, a), CanonMembers(o, b)) {
      forall k | Find(b, k).Some? ensures Find(a, k).Some? {
        assert Find(CanonMembers(o, a), k) == Find(CanonMembers(o, b), k);
      }
    }
  }

  // ---------------------------------------------------------------------------
  // Main results
  // ---------------------------------------------------------------------------

  /** Canonical and unambiguous: two values print alike exactly when they are the same tree up to the
      order of object members at any depth. */
  lemma DumpsIffSame(o: KeyOrder, a: Json, b: Json)
    requires WellFormed(a) && WellFormed(b)
    ensures Dumps(o, a) == Dumps(o, b) <==> Same(a, b)
  {
    hide Dumps, Print, Canon, Same;
    DumpsIsPrintedCanon(o, a);
    DumpsIsPrintedCanon(o, b);
    CanonIffSame(o, a, b);
    CanonIsPlain(o, a);
    CanonIsPlain(o, b);
    if Dumps(o, a) == Dumps(o, b) {
      assert Print(Canon(o, a)) + "" == Print(Canon(o, b)) + "";
      PrintUnique(Canon(o, a), Canon(o, b), "", "");
    }
  }

  // ---------------------------------------------------------------------------
  // Two key orders, one text
  // ---------------------------------------------------------------------------

  /** Two keys of one object, at any depth, that the two languages order differently. */
  ghost predicate HasInversion(j: Json) {
    match j
    case JArray(items) => ItemsHaveInversion(items)
    case JObject(members) => KeysInverted(members) || MembersHaveInversion(members)
    case _ => false
  }

  ghost predicate ItemsHaveInversion(items: List<Json>) {
    match items
    case Nil => false
    case Cons(j, rest) => HasInversion(j) || ItemsHaveInversion(rest)
  }

  ghost predicate MembersHaveInversion(members: List<Entry<Json>>) {
    match members
    case Nil => false
    case Cons(m, rest) => HasInversion(m.value) || MembersHaveInversion(rest)
  }

  ghost predicate KeysInverted(members: List<Entry<Json>>) {
    exists k, l :: Find(members, k).Some? && Find(members, l).Some? && Inverted(k, l)
  }

  lemma {:induction false} InsertAgrees<V>(e: Entry<V>, es: List<Entry<V>>)
    requires forall k :: Find(es, k).Some? ==> !Inverted(k, e.key)
    ensures Insert(Utf16Order, e, es) == Insert(CodePointOrder, e, es)
  {
    hide Before, Inverted;
    if es.Cons? {
      assert Find(es, es.head.key).Some?;
      OrdersAgree(es.head.key, e.key);
      forall k | Find(es.tail, k).Some? ensures Find(es, k).Some? {
      }
      InsertAgrees(e, es.tail);
    }
  }

  /** Keys without an inversion are sorted alike. */
  lemma {:induction false} SortAgrees<V>(es: List<Entry<V>>)
    requires DistinctKeys(es)
    requires forall k, l :: Find(es, k).Some? && Find(es, l).Some? ==> !Inverted(k, l)
    ensures SortEntries(Utf16Order, es) == SortEntries(CodePointOrder, es)
  {
    hide Before, Inverted, Insert;
    if es.Cons? {
      forall k | Find(es.tail, k).Some? ensures Find(es, k).Some? {
      }
      SortAgrees(es.tail);
      var sorted := SortEntries(CodePointOrder, es.tail);
      assert Find(es, es.head.key).Some?;
      forall k | Find(sorted, k).Some? ensures !Inverted(k, es.head.key) {
        FindSorted(CodePointOrder, es.tail, k);
      }
      InsertAgrees(es.head, sorted);
    }
  }

  /** k stands in front of l in the list. */
  predicate InFront<V>(es: List<Entry<V>>, k: string, l: string) {
    es.Cons? && if es.head.key == k then Find(es.tail, l).Some? else es.head.key != l && InFront(es.tail, k, l)
  }

  lemma {:induction false} AscendingPositions<V>(o: KeyOrder, es: List<Entry<V>>, k: string, l: string)
    requires Ascending(o, es) && Find(es, k).Some? && Find(es, l).Some? && k != l
    ensures Before(o, k, l) <==> InFront(es, k, l)
  {
    hide Before;
    BeforeIsStrict(o, k, l);
    if es.head.key == k {
      HeadIsLeast(o, es, l);
    } else if es.head.key == l {
      HeadIsLeast(o, es, k);
    } else {
      AscendingPositions(o, es.tail, k, l);
    }
  }

  /** A list that is ascending in both orders has no inverted keys. */
  lemma BothAscending<V>(es: List<Entry<V>>, k: string, l: string)
    requires Ascending(Utf16Order, es) && Ascending(CodePointOrder, es)
    requires Find(es, k).Some? && Find(es, l).Some?
    ensures !Inverted(k, l)
  {
    hide Before, Inverted;
    OrdersAgree(k, l);
    BeforeIsStrict(Utf16Order, k, l);
    BeforeIsStrict(CodePointOrder, k, l);
    if k != l {
      AscendingPositions(Utf16Order, es, k, l);
      AscendingPositions(CodePointOrder, es, k, l);
    }
  }

  lemma SortsAlikeIff(a: List<Entry<Json>>, b: List<Entry<Json>>)
    requires DistinctKeys(a) && DistinctKeys(b) && forall k :: Find(a, k).Some? == Find(b, k).Some?
    requires (forall k :: Find(a, k) == Find(b, k)) ==> a == b
    ensures SortEntries(Utf16Order, a) == SortEntries(CodePointOrder, b) <==> a == b && !KeysInverted(a)
  {
    hide Before, Inverted, SortEntries;
    var x, y := SortEntries(Utf16Order, a), SortEntries(CodePointOrder, b);
    forall k ensures Find(x, k) == Find(a, k) && Find(y, k) == Find(b, k) {
      FindSorted(Utf16Order, a, k);
      FindSorted(CodePointOrder, b, k);
    }
    SortedAscending(Utf16Order, a);
    SortedAscending(CodePointOrder, b);
    if x == y {
      forall k, l | Find(a, k).Some? && Find(a, l).Some? ensures !Inverted(k, l) {
        BothAscending(x, k, l);
      }
    }
    if a == b && !KeysInverted(a) {
      SortAgrees(a);
    }
  }

  lemma {:induction false} SameKeysSameList(a: List<Entry<Json>>, b: List<Entry<Json>>)
    requires SameKeyLists(a, b) && DistinctKeys(a) && DistinctKeys(b)
    ensures forall k :: Find(a, k).Some? == Find(b, k).Some?
    ensures (forall k :: Find(a, k) == Find(b, k)) ==> a == b
  {
    if a.Cons? {
      SameKeysSameList(a.tail, b.tail);
      if forall k :: Find(a, k) == Find(b, k) {
        assert Find(a, a.head.key) == Find(b, a.head.key);
        forall k ensures Find(a.tail, k) == Find(b.tail, k) {
          assert Find(a, k) == Find(b, k);
        }
      }
    }
  }

  predicate SameKeyLists(a: List<Entry<Json>>, b: List<Entry<Json>>) {
    match a
    case Nil => b.Nil?
    case Cons(m, rest) => b.Cons? && b.head.key == m.key && SameKeyLists(rest, b.tail)
  }

  lemma {:induction false} CanonKeepsKeys(members: List<Entry<Json>>)
    ensures SameKeyLists(CanonMembers(Utf16Order, members), CanonMembers(CodePointOrder, members))
    ensures forall k :: Find(CanonMembers(Utf16Order, members), k).Some? == Find(members, k).Some?
  {
    hide Canon;
    if members.Cons? {
      CanonKeepsKeys(members.tail);
    }
  }

  lemma {:induction false} CanonAgrees(j: Json)
    requires WellFormed(j)
    ensures Canon(Utf16Order, j) == Canon(CodePointOrder, j) <==> !HasInversion(j)
    decreases j
  {
    hide SortEntries, Inverted;
    match j {
      case JArray(items) => ItemsAgree(items);
      case JObject(members) =>
        var a, b := CanonMembers(Utf16Order, members), CanonMembers(CodePointOrder, members);
        MembersAgree(members);
        CanonKeepsKeys(members);
        CanonDistinct(Utf16Order, members);
        CanonDistinct(CodePointOrder, members);
        SameKeysSameList(a, b);
        SortsAlikeIff(a, b);
        assert KeysInverted(a) <==> KeysInverted(members);
      case _ =>
    }
  }

  lemma {:induction false} ItemsAgree(items: List<Json>)
    requires WellFormedItems(items)
    ensures CanonItems(Utf16Order, items) == CanonItems(CodePointOrder, items) <==> !ItemsHaveInversion(items)
    decreases items
  {
    if items.Cons? {
      CanonAgrees(items.head);
      ItemsAgree(items.tail);
    }
  }

  lemma {:induction false} MembersAgree(members: List<Entry<Json>>)
    requires WellFormedMembers(members)
    ensures CanonMembers(Utf16Order, members) == CanonMembers(CodePointOrder, members)
       <==> !MembersHaveInversion(members)
    decreases members
  {
    if members.Cons? {
      CanonAgrees(members.head.value);
      MembersAgree(members.tail);
    }
  }
}
