/** Keyed lists, as objects keep their members, and sorting them by key. */
module Entries {
  import opened Wrappers
  import opened TextOrder

  datatype List<+T> = Nil | Cons(head: T, tail: List<T>)

  datatype Entry<+V> = Entry(key: string, value: V)

  function Find<V>(es: List<Entry<V>>, k: string): Option<V> {
    match es
    case Nil => None
    case Cons(e, rest) => if e.key == k then Some(e.value) else Find(rest, k)
  }

  predicate DistinctKeys<V>(es: List<Entry<V>>) {
    match es
    case Nil => true
    case Cons(e, rest) => Find(rest, e.key).None? && DistinctKeys(rest)
  }

  function Insert<V>(o: KeyOrder, e: Entry<V>, es: List<Entry<V>>): List<Entry<V>> {
    match es
    case Nil => Cons(e, Nil)
    case Cons(f, rest) => if Before(o, f.key, e.key) then Cons(f, Insert(o, e, rest)) else Cons(e, es)
  }

  /** The entries in ascending order of their keys. */
  function SortEntries<V>(o: KeyOrder, es: List<Entry<V>>): List<Entry<V>> {
    match es
    case Nil => Nil
    case Cons(e, rest) => Insert(o, e, SortEntries(o, rest))
  }

  /** Every key comes strictly after the one in front of it. */
  predicate Ascending<V>(o: KeyOrder, es: List<Entry<V>>) {
    match es
    case Nil => true
    case Cons(e, rest) => (rest.Cons? ==> Before(o, e.key, rest.head.key)) && Ascending(o, rest)
  }

  lemma {:induction false} FindInsert<V>(o: KeyOrder, e: Entry<V>, es: List<Entry<V>>, k: string)
    requires Find(es, e.key).None?
    ensures Find(Insert(o, e, es), k) == if k == e.key then Some(e.value) else Find(es, k)
  {
    hide Before;
    if es.Cons? && Before(o, es.head.key, e.key) {
      FindInsert(o, e, es.tail, k);
    }
  }

  lemma {:induction false} FindSorted<V>(o: KeyOrder, es: List<Entry<V>>, k: string)
    requires DistinctKeys(es)
    ensures Find(SortEntries(o, es), k) == Find(es, k)
  {
    hide Before;
    if es.Cons? {
      var sorted := SortEntries(o, es.tail);
      FindSorted(o, es.tail, k);
      FindSorted(o, es.tail, es.head.key);
      FindInsert(o, es.head, sorted, k);
    }
  }

  lemma {:induction false} InsertAscending<V>(o: KeyOrder, e: Entry<V>, es: List<Entry<V>>)
    requires Ascending(o, es) && Find(es, e.key).None?
    ensures Ascending(o, Insert(o, e, es))
  {
    hide Before;
    if es.Cons? {
      BeforeIsStrict(o, es.head.key, e.key);
      if Before(o, es.head.key, e.key) {
        InsertAscending(o, e, es.tail);
      }
    }
  }

  lemma {:induction false} SortedAscending<V>(o: KeyOrder, es: List<Entry<V>>)
    requires DistinctKeys(es)
    ensures Ascending(o, SortEntries(o, es))
  {
    hide Before;
    if es.Cons? {
      SortedAscending(o, es.tail);
      FindSorted(o, es.tail, es.head.key);
      InsertAscending(o, es.head, SortEntries(o, es.tail));
    }
  }

  /** Nothing in an ascending list lies before its first key. */
  lemma {:induction false} HeadIsLeast<V>(o: KeyOrder, es: List<Entry<V>>, k: string)
    requires es.Cons? && Ascending(o, es) && Find(es.tail, k).Some?
    ensures Before(o, es.head.key, k)
  {
    hide Before;
    if es.tail.head.key != k {
      HeadIsLeast(o, es.tail, k);
      BeforeTransitive(o, es.head.key, es.tail.head.key, k);
    }
  }

  /** The two lists hold the same value under every key. */
  ghost predicate SameEntries<V>(a: List<Entry<V>>, b: List<Entry<V>>) {
    forall k :: Find(a, k) == Find(b, k)
  }

  lemma SameHead<V>(o: KeyOrder, a: List<Entry<V>>, b: List<Entry<V>>)
    requires Ascending(o, a) && Ascending(o, b) && SameEntries(a, b) && a.Cons? && b.Cons?
    ensures a.head == b.head
  {
    hide Before, Ascending;
    assert Find(a, a.head.key).Some? && Find(b, b.head.key).Some?;
    assert Find(b, a.head.key).Some? && Find(a, b.head.key).Some?;
    if a.head.key != b.head.key {
      HeadIsLeast(o, b, a.head.key);
      HeadIsLeast(o, a, b.head.key);
      BeforeIsStrict(o, a.head.key, b.head.key);
    }
  }

  lemma HeadNotInTail<V>(o: KeyOrder, a: List<Entry<V>>)
    requires Ascending(o, a) && a.Cons?
    ensures Find(a.tail, a.head.key).None?
  {
    hide Before;
    BeforeIsStrict(o, a.head.key, a.head.key);
    if Find(a.tail, a.head.key).Some? {
      HeadIsLeast(o, a, a.head.key);
    }
  }

  /** An ascending list is determined by its entries: sorting is canonical. */
  lemma {:induction false} AscendingIsUnique<V>(o: KeyOrder, a: List<Entry<V>>, b: List<Entry<V>>)
    requires Ascending(o, a) && Ascending(o, b) && SameEntries(a, b)
    ensures a == b
  {
    hide Before;
    assert a.Cons? ==> Find(b, a.head.key) == Some(a.head.value);
    assert b.Cons? ==> Find(a, b.head.key) == Some(b.head.value);
    if a.Cons? {
      SameHead(o, a, b);
      HeadNotInTail(o, a);
      HeadNotInTail(o, b);
      forall k ensures Find(a.tail, k) == Find(b.tail, k) {
        assert Find(a, k) == Find(b, k);
      }
      AscendingIsUnique(o, a.tail, b.tail);
    }
  }

  /** Two lists with distinct keys sort to the same list exactly when they hold the same entries. */
  lemma SortIsCanonical<V>(o: KeyOrder, a: List<Entry<V>>, b: List<Entry<V>>)
    requires DistinctKeys(a) && DistinctKeys(b)
    ensures SortEntries(o, a) == SortEntries(o, b) <==> SameEntries(a, b)
  {
    hide Before, SortEntries;
    SortedAscending(o, a);
    SortedAscending(o, b);
    forall k ensures Find(SortEntries(o, a), k) == Find(a, k) && Find(SortEntries(o, b), k) == Find(b, k) {
      FindSorted(o, a, k);
      FindSorted(o, b, k);
    }
    if SameEntries(a, b) {
      AscendingIsUnique(o, SortEntries(o, a), SortEntries(o, b));
    }
  }
}
