/** The two idempotency guards as the code keeps them: an insertion-ordered dict, and a Map. */
module ReplayGuards {
  import opened SeenLog

  lemma DistinctSuffix(s: seq<Seen>, n: nat)
    requires Distinct(s) && n <= |s|
    ensures Distinct(s[n..])
  {
  }

  lemma {:induction false} SeenAtIs(s: seq<Seen>, i: nat)
    requires Distinct(s) && i < |s|
    ensures Has(s, s[i].key) && SeenAt(s, s[i].key) == s[i].at
  {
    SeenAtIndex(s, i);
  }

  /** Position of a key, or |s|. */
  method Lookup(s: seq<Seen>, key: string) returns (i: nat)
    ensures i <= |s| && (i < |s| <==> Has(s, key))
    ensures i < |s| ==> s[i].key == key
  {
    i := 0;
    while i < |s| && s[i].key != key
      invariant i <= |s| && forall k :: 0 <= k < i ==> s[k].key != key
    {
      i := i + 1;
    }
  }

  /** Deleting the entry at i deletes the key. */
  lemma {:induction false} DeleteAt(s: seq<Seen>, i: nat)
    requires Distinct(s) && i < |s|
    ensures s[..i] + s[i + 1..] == Without(s, s[i].key)
  {
    if i == 0 {
      var rest := s[1..];
      WithoutContents(rest, s[0].key);
      forall k | 0 <= k < |rest| ensures rest[k].key != s[0].key {
        assert rest[k] == s[k + 1];
      }
      assert s[..0] + s[1..] == s[1..];
    } else {
      DistinctSuffix(s, 1);
      DeleteAt(s[1..], i - 1);
      assert s[..i] + s[i + 1..] == [s[0]] + (s[1..][..i - 1] + s[1..][i..]);
    }
  }

  class PythonGuard {
    const maxKeys: nat
    const ttl: real
    var seen: seq<Seen>

    ghost predicate Valid()
      reads this
    {
      Distinct(seen) && |seen| <= maxKeys
    }

    ghost function RulesOf(): Rules {
      Rules(maxKeys, ttl, true)
    }

    constructor (maxKeys: nat, ttl: real)
      ensures Valid() && seen == [] && this.maxKeys == maxKeys && this.ttl == ttl
    {
      this.maxKeys, this.ttl, seen := maxKeys, ttl, [];
    }

    method EvictExpired(now: real)
      requires Valid()
      modifies this
      ensures Valid() && seen == DropOld(RulesOf(), old(seen), now)
    {
      var cutoff := now - ttl;
      while seen != []
        invariant Valid() && DropOld(RulesOf(), seen, now) == DropOld(RulesOf(), old(seen), now)
        decreases |seen|
      {
        if seen[0].at > cutoff {
          break;
        }
        seen := seen[1..];
      }
    }

    /** evictNow and now are the two readings of the clock that one call takes. */
    method IsDuplicate(key: string, evictNow: real, now: real) returns (duplicate: bool)
      requires Valid()
      modifies this
      ensures duplicate == Duplicate(RulesOf(), old(seen), key, evictNow, now)
      ensures Valid() && seen == Next(RulesOf(), old(seen), Present(key, evictNow, now))
    {
      hide DropOld, Without;
      EvictExpired(evictNow);
      ghost var s := seen;
      var i := Lookup(seen, key);
      WithoutContents(s, key);
      if i < |seen| {
        SeenAtIs(seen, i);
        if now - seen[i].at < ttl {
          return true;
        }
        DeleteAt(seen, i);
        seen := seen[..i] + seen[i + 1..];
      }
      AppendDistinct(seen, Seen(key, now));
      seen := seen + [Seen(key, now)];
      while |seen| > maxKeys
        invariant Distinct(seen) && |seen| <= maxKeys + 1
        invariant seen == Without(s, key) + [Seen(key, now)]
                  || (|seen| <= maxKeys && seen == Record(RulesOf(), s, key, now))
        decreases |seen|
      {
        DistinctSuffix(seen, 1);
        seen := seen[1..];
      }
      return false;
    }
  }

  lemma AppendDistinct(s: seq<Seen>, e: Seen)
    requires Distinct(s) && !Has(s, e.key)
    ensures Distinct(s + [e])
  {
  }

  class TypeScriptGuard {
    const maxKeys: int
    const ttlSeconds: real
    var seen: seq<Seen>

    ghost predicate Valid()
      reads this
    {
      Distinct(seen) && |seen| <= Cap()
    }

    /** A limit below one behaves like one: the newest key always stays. */
    ghost function Cap(): nat {
      if maxKeys < 1 then 1 else maxKeys
    }

    ghost function RulesOf(): Rules {
      Rules(Cap(), ttlSeconds, false)
    }

    constructor (maxKeys: int, ttlSeconds: real)
      ensures Valid() && seen == [] && this.maxKeys == maxKeys && this.ttlSeconds == ttlSeconds
    {
      this.maxKeys, this.ttlSeconds, seen := maxKeys, ttlSeconds, [];
    }

    method IsDuplicate(key: string, evictNow: real, now: real) returns (duplicate: bool)
      requires Valid()
      modifies this
      ensures duplicate == Duplicate(RulesOf(), old(seen), key, evictNow, now)
      ensures Valid() && seen == Next(RulesOf(), old(seen), Present(key, evictNow, now))
    {
      hide DropOld, Record;
      EvictExpired(evictNow);
      var i := Lookup(seen, key);
      if i < |seen| {
        return true;
      }
      MarkSeen(key, now);
      return false;
    }

    method MarkSeen(key: string, now: real)
      requires Valid()
      modifies this
      ensures Valid() && seen == Next(RulesOf(), old(seen), Mark(key, now))
      ensures seen != [] && seen[|seen| - 1] == Seen(key, now)
      ensures |seen| <= 1 || |seen| <= maxKeys
    {
      hide Without;
      ghost var s := seen;
      WithoutContents(s, key);
      var i := Lookup(seen, key);
      if i < |seen| {
        DeleteAt(seen, i);
        WithoutDistinct(s, key);
        seen := seen[..i] + seen[i + 1..];
      }
      if |seen| >= maxKeys && |seen| > 0 {
        DistinctSuffix(seen, 1);
        assert seen + [Seen(key, now)] == [seen[0]] + (seen[1..] + [Seen(key, now)]);
        seen := seen[1..];
      }
      AppendDistinct(seen, Seen(key, now));
      seen := seen + [Seen(key, now)];
    }

    method EvictExpired(now: real)
      requires Valid()
      modifies this
      ensures Valid() && seen == DropOld(RulesOf(), old(seen), now)
    {
      var cutoff := now - ttlSeconds;
      while seen != []
        invariant Valid() && DropOld(RulesOf(), seen, now) == DropOld(RulesOf(), old(seen), now)
        decreases |seen|
      {
        if seen[0].at < cutoff {
          seen := seen[1..];
        } else {
          break;
        }
      }
    }

    method Clear()
      modifies this
      ensures Valid() && seen == Next(RulesOf(), old(seen), Step.Clear)
    {
      seen := [];
    }
  }

  /** Deleting a key keeps the others distinct. */
  lemma {:induction false} WithoutDistinct(s: seq<Seen>, key: string)
    requires Distinct(s)
    ensures Distinct(Without(s, key))
  {
    if s != [] {
      var rest := Without(s[1..], key);
      WithoutDistinct(s[1..], key);
      WithoutContents(s[1..], key);
      if s[0].key != key {
        forall j | 0 <= j < |rest| ensures s[0].key != rest[j].key {
          assert rest[j] in s[1..];
        }
      }
    }
  }
}
