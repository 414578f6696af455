/** The token stores as the objects the program keeps. */
module TokenStores {
  import opened Wrappers
  import opened TokenUses

  class InMemoryTokenStore {
    var counts: Counts
    ghost var calls: seq<Call>
    ghost var oks: seq<bool>

    /** The counts, and the answers given so far, are those of the calls made. */
    ghost predicate Valid()
      reads this
    {
      counts == After(IncrementIfBelow, calls) && oks == Oks(IncrementIfBelow, calls)
    }

    constructor ()
      ensures Valid() && calls == []
    {
      counts, calls, oks := map[], [], [];
    }

    method GetAndIncrement(id: string, maxUses: Option<int>) returns (ok: bool)
      requires Valid()
      modifies this
      ensures Valid() && calls == old(calls) + [Call(id, maxUses)] && oks == old(oks) + [ok]
      ensures ok <==> maxUses.None? || old(Approved(calls, oks, id)) < maxUses.value
    {
      hide After, Oks, Approved;
      OksMore(IncrementIfBelow, calls, Call(id, maxUses));
      CountMeans(IncrementIfBelow, calls, id);
      var current := if id in counts then counts[id] else 0;
      calls := calls + [Call(id, maxUses)];
      if maxUses.Some? && current >= maxUses.value {
        oks := oks + [false];
        return false;
      }
      counts := counts[id := current + 1];
      oks := oks + [true];
      return true;
    }
  }

  /** The key-value server both remote stores talk to: whole numbers under prefixed keys. */
  class Remote {
    var values: map<string, nat>

    constructor ()
      ensures values == map[]
    {
      values := map[];
    }

    method Incr(key: string) returns (n: nat)
      modifies this
      ensures n == Uses(old(values), key) + 1 && values == old(values)[key := n]
    {
      n := if key in values then values[key] + 1 else 1;
      values := values[key := n];
    }

    /** The atomic script: the new count, or -1 and nothing changed. */
    method IncrIfBelow(key: string, limit: Option<int>) returns (n: int)
      modifies this
      ensures n == -1 <==> limit.Some? && Uses(old(values), key) >= limit.value
      ensures values == if n == -1 then old(values) else old(values)[key := Uses(old(values), key) + 1]
    {
      var current := if key in values then values[key] else 0;
      if limit.None? || current < limit.value {
        n := Incr(key);
      } else {
        n := -1;
      }
    }
  }

  /** The remote keys hold exactly the counts, under the prefix. */
  ghost predicate Holds(values: map<string, nat>, prefix: string, counts: Counts) {
    forall id :: (prefix + id in values <==> id in counts) && (id in counts ==> values[prefix + id] == counts[id])
  }

  lemma PrefixIsInjective(prefix: string, a: string, b: string)
    ensures prefix + a == prefix + b <==> a == b
  {
    assert (prefix + a)[|prefix|..] == a && (prefix + b)[|prefix|..] == b;
  }

  lemma HoldsMore(values: map<string, nat>, prefix: string, counts: Counts, id: string, n: nat)
    requires Holds(values, prefix, counts)
    ensures Holds(values[prefix + id := n], prefix, counts[id := n])
  {
    forall other
      ensures prefix + other in values[prefix + id := n] <==> other in counts[id := n]
      ensures other in counts[id := n] ==> values[prefix + id := n][prefix + other] == counts[id := n][other]
    {
      PrefixIsInjective(prefix, id, other);
    }
  }

  /** store says which of the two remote protocols the client speaks. */
  class RemoteTokenStore {
    const store: Store
    const prefix: string
    const remote: Remote
    ghost var calls: seq<Call>
    ghost var oks: seq<bool>

    ghost predicate Valid()
      reads this, remote
    {
      Holds(remote.values, prefix, After(store, calls)) && oks == Oks(store, calls)
    }

    constructor (store: Store, prefix: string)
      ensures Valid() && calls == [] && fresh(remote) && this.store == store
    {
      this.store, this.prefix := store, prefix;
      remote := new Remote();
      calls, oks := [], [];
    }

    method GetAndIncrement(id: string, maxUses: Option<int>) returns (ok: bool)
      requires Valid()
      modifies this, remote
      ensures Valid() && calls == old(calls) + [Call(id, maxUses)] && oks == old(oks) + [ok]
      ensures store.IncrementIfBelow? ==> (ok <==> maxUses.None? || old(Approved(calls, oks, id)) < maxUses.value)
      ensures store.IncrementThenCompare? ==> (ok <==> maxUses.None? || old(Presented(calls, id)) < maxUses.value)
    {
      hide After, Oks, Approved, Presented, Holds;
      OksMore(store, calls, Call(id, maxUses));
      CountMeans(store, calls, id);
      HoldsUses(remote.values, prefix, After(store, calls), id);
      HoldsMore(remote.values, prefix, After(store, calls), id, Uses(After(store, calls), id) + 1);
      var key := prefix + id;
      if store == IncrementIfBelow {
        var result := remote.IncrIfBelow(key, maxUses);
        ok := result != -1;
      } else {
        var newCount := remote.Incr(key);
        ok := !(maxUses.Some? && newCount > maxUses.value);
      }
      calls, oks := calls + [Call(id, maxUses)], oks + [ok];
    }
  }

  lemma HoldsUses(values: map<string, nat>, prefix: string, counts: Counts, id: string)
    requires Holds(values, prefix, counts)
    ensures Uses(values, prefix + id) == Uses(counts, id)
  {
  }
}
