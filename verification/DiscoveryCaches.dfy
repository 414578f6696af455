/** The discovery cache as the object the program keeps: an insertion-ordered map with hit counters. */
module DiscoveryCaches {
  import opened Wrappers
  import opened DiscoveryLaws

  /** The cards among the entries that advertise a capability. */
  function Advertising(entries: seq<Cached>, capability: string): seq<Card> {
    if entries == [] then []
    else
      var front := Advertising(entries[..|entries| - 1], capability);
      var e := entries[|entries| - 1];
      if e.card.Advertises(capability) then front + [e.card] else front
  }

  lemma {:induction false} AdvertisingIs(entries: seq<Cached>, capability: string)
    ensures forall card :: card in Advertising(entries, capability) <==>
              exists e :: e in entries && e.card == card
                && (capability in card.capabilities || capability in card.skills)
  {
    if entries != [] {
      AdvertisingIs(entries[..|entries| - 1], capability);
      assert entries == entries[..|entries| - 1] + [entries[|entries| - 1]];
    }
  }

  class DiscoveryCache {
    // The map from DIDs to entries, as its values in insertion order: each is stored under its card's DID.
    var cache: seq<Cached>
    const maxEntries: nat
    const defaultTtl: real
    var hits: nat
    var misses: nat
    ghost var log: seq<Note>

    ghost function State(): Cache
      reads this
    {
      Cache(cache, log)
    }

    ghost predicate Valid()
      reads this
    {
      Good(maxEntries, State())
    }

    constructor (maxEntries: nat, defaultTtl: real)
      ensures Valid() && State() == Run(maxEntries, []) && hits == 0 && misses == 0
      ensures this.maxEntries == maxEntries && this.defaultTtl == defaultTtl
    {
      this.maxEntries, this.defaultTtl := maxEntries, defaultTtl;
      cache, hits, misses, log := [], 0, 0, [];
      new;
      RunGood(maxEntries, []);
    }

    method Get(did: string, now: real) returns (r: Option<Card>)
      requires Valid()
      modifies this
      ensures Valid() && State() == Next(maxEntries, old(State()), Op.Get(did, now))
      ensures r == Answer(old(State()), did, now)
      ensures forall card :: r == Some(card) <==>
                exists e :: e in old(cache) && e.card == card && card.did == did && now - e.at <= e.ttl
      ensures r.Some? ==>
                && cache != [] && cache[|cache| - 1].card == r.value && log == old(log) + [Hit(did)]
                && forall e :: e in cache <==> e in old(cache)
      ensures r.None? ==> forall e :: e in cache <==> e in old(cache) && e.card.did != did
      ensures hits == old(hits) + (if r.Some? then 1 else 0) && misses == old(misses) + if r.None? then 1 else 0
    {
      hide Good, Dids, Remove;
      NextGood(maxEntries, State(), Op.Get(did, now));
      AnswerIs(maxEntries, State(), did, now);
      RemoveIs(cache, did);
      FoundIsOne(maxEntries, State(), did);
      var e := Find(cache, did);
      if e.None? || e.value.Expired(now) {
        misses := misses + 1;
        if e.Some? {
          cache := Remove(cache, did);
          log := log + [Gone(did)];
        }
        return None;
      }
      cache := Remove(cache, did);
      cache := cache + [e.value];
      log := log + [Hit(did)];
      hits := hits + 1;
      return Some(e.value.card);
    }

    method Put(card: Card, ttl: Option<real>, now: real)
      requires Valid()
      modifies this`cache, this`log
      ensures Valid()
      ensures State() ==
              Next(maxEntries, old(State()), Op.Put(card, if ttl.Some? then ttl.value else defaultTtl, now))
      ensures var e := Cached(card, now, if ttl.Some? then ttl.value else defaultTtl);
        && log == old(log) + [Stored(e)] && |cache| <= maxEntries
        && (maxEntries > 0 ==> cache != [] && cache[|cache| - 1] == e)
    {
      hide Good, Dids, Remove;
      var resolved := if ttl.Some? then ttl.value else defaultTtl;
      NextGood(maxEntries, State(), Op.Put(card, resolved, now));
      cache := Remove(cache, card.did);
      cache := cache + [Cached(card, now, resolved)];
      log := log + [Stored(Cached(card, now, resolved))];
      ghost var touched := State();
      while |cache| > maxEntries
        invariant log == touched.log && Trim(maxEntries, State()) == Trim(maxEntries, touched)
      {
        TrimOne(maxEntries, State());
        cache := cache[1..];
      }
    }

    method Invalidate(did: string) returns (existed: bool)
      requires Valid()
      modifies this`cache, this`log
      ensures Valid() && State() == Next(maxEntries, old(State()), Op.Invalidate(did))
      ensures existed == (did in Dids(old(cache)))
    {
      NextGood(maxEntries, State(), Op.Invalidate(did));
      existed := Find(cache, did).Some?;
      cache := Remove(cache, did);
      log := log + [Gone(did)];
    }

    method Clear()
      requires Valid()
      modifies this`cache, this`log
      ensures Valid() && State() == Next(maxEntries, old(State()), Op.Clear)
    {
      NextGood(maxEntries, State(), Op.Clear);
      cache := [];
      log := log + [Wiped];
    }

    /** _evict_expired: drop the expired entries one after the other. */
    method EvictExpired(now: real)
      requires Valid()
      modifies this`cache, this`log
      ensures Valid() && State() == Next(maxEntries, old(State()), Op.Search(now))
      ensures cache == Unexpired(old(cache), now)
      ensures forall e :: e in cache <==> e in old(cache) && now - e.at <= e.ttl
    {
      hide Dids, Remove;
      NextGood(maxEntries, State(), Op.Search(now));
      UnexpiredIs(cache, now);
      SweepIs(maxEntries, State(), now);
      hide Good, Unexpired, Next;
      var entries := cache;
      var i := 0;
      while i < |entries|
        invariant 0 <= i <= |entries|
        invariant Sweep(entries[i..], now, State()) == Sweep(entries, now, old(State()))
      {
        assert entries[i..][0] == entries[i] && entries[i..][1..] == entries[i + 1..];
        if entries[i].Expired(now) {
          cache := Remove(cache, entries[i].card.did);
          log := log + [Gone(entries[i].card.did)];
        }
        i := i + 1;
      }
    }

    method Search(capability: string, now: real) returns (r: seq<Card>)
      requires Valid()
      modifies this`cache, this`log
      ensures Valid() && State() == Next(maxEntries, old(State()), Op.Search(now))
      ensures r == Advertising(Unexpired(old(cache), now), capability)
      ensures forall card :: card in r <==>
                exists e :: e in old(cache) && e.card == card && now - e.at <= e.ttl
                  && (capability in card.capabilities || capability in card.skills)
    {
      hide Good, Dids, Sweep, Unexpired, Next;
      AdvertisingIs(Unexpired(cache, now), capability);
      UnexpiredIs(cache, now);
      EvictExpired(now);
      r := [];
      var i := 0;
      while i < |cache|
        invariant 0 <= i <= |cache| && r == Advertising(cache[..i], capability)
      {
        assert cache[..i + 1][..i] == cache[..i];
        if cache[i].card.Advertises(capability) {
          r := r + [cache[i].card];
        }
        i := i + 1;
      }
      assert cache[..i] == cache;
    }
  }

  /** Assigning in place and then moving to the end, as the Python cache does, is removing and appending. */
  function Assign(entries: seq<Cached>, e: Cached): seq<Cached> {
    if entries == [] then [e]
    else if entries[0].card.did == e.card.did then [e] + entries[1..]
    else [entries[0]] + Assign(entries[1..], e)
  }

  lemma {:induction false} AssignThenMove(entries: seq<Cached>, e: Cached)
    requires |Dids(entries)| == |entries|
    ensures Find(Assign(entries, e), e.card.did) == Some(e)
    ensures Remove(Assign(entries, e), e.card.did) == Remove(entries, e.card.did)
  {
    hide Dids, Remove, Find;
    var did := e.card.did;
    if entries == [] {
      RemoveNone([], did);
      RemoveCons(e, [], did);
      FindCons(e, [], did);
      assert [e] + [] == [e];
      EmptyHasNone(did);
    } else {
      var e0, rest := entries[0], entries[1..];
      HeadIsNew(entries);
      AssignThenMove(rest, e);
      assert [e0] + rest == entries;
      RemoveCons(e0, rest, did);
      if e0.card.did == did {
        RemoveCons(e, rest, did);
        FindCons(e, rest, did);
      } else {
        RemoveCons(e0, Assign(rest, e), did);
        FindCons(e0, Assign(rest, e), did);
      }
    }
  }

  lemma EmptyHasNone(did: string)
    ensures did !in Dids([])
  {
  }

  lemma FindCons(e0: Cached, rest: seq<Cached>, did: string)
    ensures Find([e0] + rest, did) == if e0.card.did == did then Some(e0) else Find(rest, did)
  {
    assert ([e0] + rest)[1..] == rest;
  }
}
