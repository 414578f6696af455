/** The key trust store as the object the program keeps: the keys of every DID, newest first. */
module KeyTrust {
  import opened Wrappers
  import opened KeyRotation

  datatype Trust = Granted(key: Key) | NoKeys | NoneActive | NotEd25519 | NotVerified

  /** One call of the store: about one DID, or a purge of them all. */
  datatype Event = About(did: string, op: Op) | PurgeAll(now: real)

  function KeysOf(keys: map<string, seq<Key>>, did: string): seq<Key> {
    if did in keys then keys[did] else []
  }

  /** The run of one DID's keys that a log of calls comes to. */
  function OpsOf(log: seq<Event>, did: string): seq<Op> {
    if log == [] then []
    else
      var front, last := OpsOf(log[..|log| - 1], did), log[|log| - 1];
      if last.PurgeAll? then front + [Purge(last.now)] else if last.did == did then front + [last.op] else front
  }

  lemma OpsMore(log: seq<Event>, e: Event, did: string)
    ensures OpsOf(log + [e], did) ==
            if e.PurgeAll? then OpsOf(log, did) + [Purge(e.now)]
            else if e.did == did then OpsOf(log, did) + [e.op]
            else OpsOf(log, did)
  {
    assert (log + [e])[..|log|] == log;
  }

  /** Every DID's keys are the run of the calls about it. */
  ghost predicate Agrees(p: Policy, keys: map<string, seq<Key>>, log: seq<Event>) {
    forall did :: KeysOf(keys, did) == Run(p, OpsOf(log, did))
  }

  lemma AgreesAbout(p: Policy, keys: map<string, seq<Key>>, log: seq<Event>, did: string, op: Op,
                    after: map<string, seq<Key>>)
    requires Agrees(p, keys, log) && KeysOf(after, did) == Next(p, KeysOf(keys, did), op)
    requires forall d :: d != did ==> KeysOf(after, d) == KeysOf(keys, d)
    ensures Agrees(p, after, log + [About(did, op)])
  {
    hide Run, OpsOf, Next;
    forall d
      ensures KeysOf(after, d) == Run(p, OpsOf(log + [About(did, op)], d))
    {
      OpsMore(log, About(did, op), d);
      RunMore(p, OpsOf(log, d), op);
    }
  }

  lemma AgreesPurge(p: Policy, keys: map<string, seq<Key>>, log: seq<Event>, now: real, after: map<string, seq<Key>>)
    requires Agrees(p, keys, log) && forall d :: KeysOf(after, d) == Live(KeysOf(keys, d), now)
    ensures Agrees(p, after, log + [PurgeAll(now)])
  {
    hide Run, OpsOf, Live;
    forall d
      ensures KeysOf(after, d) == Run(p, OpsOf(log + [PurgeAll(now)], d))
    {
      OpsMore(log, PurgeAll(now), d);
      RunMore(p, OpsOf(log, d), Purge(now));
      PurgeIsLive(p, KeysOf(keys, d), now);
    }
  }

  /** With no active key in front of place i, that place is retired if it is active. */
  lemma {:induction false} RetireFirstAt(p: Policy, keys: seq<Key>, i: nat, hex: string, now: real)
    requires i <= |keys| && forall j :: 0 <= j < i ==> !keys[j].Active(now)
    ensures i == |keys| ==> RetireFirst(p, keys, hex, now) == keys
    ensures i < |keys| && keys[i].Active(now) ==>
              RetireFirst(p, keys, hex, now) == keys[i := KeyRotation.Retire(p, keys[i], hex, now)]
  {
    if i > 0 {
      RetireFirstAt(p, keys[1..], i - 1, hex, now);
    }
  }

  /** Every DID keeps exactly the keys whose expiry has not passed. */
  ghost predicate LeavesUnexpired(before: map<string, seq<Key>>, now: real, after: map<string, seq<Key>>) {
    forall d, k :: k in KeysOf(after, d) <==> k in KeysOf(before, d) && now <= k.expires
  }

  lemma PurgedIs(before: map<string, seq<Key>>, now: real, after: map<string, seq<Key>>)
    requires forall d :: KeysOf(after, d) == Live(KeysOf(before, d), now)
    ensures LeavesUnexpired(before, now, after)
  {
    hide KeysOf, Live;
    forall d, k
      ensures k in KeysOf(after, d) <==> k in KeysOf(before, d) && now <= k.expires
    {
      LiveIsPart(KeysOf(before, d), now, k);
    }
  }

  class KeyTrustStore {
    const policy: Policy
    var keys: map<string, seq<Key>>
    ghost var log: seq<Event>

    ghost predicate Valid()
      reads this
    {
      Agrees(policy, keys, log)
    }

    constructor (policy: Policy)
      ensures Valid() && this.policy == policy && log == []
    {
      this.policy, keys, log := policy, map[], [];
    }

    /** No key in return is the raised error. */
    method RegisterKey(did: string, hex: string, decodes: bool, maxAge: Option<real>, now: real)
      returns (k: Option<Key>)
      requires Valid()
      modifies this
      ensures Valid() && log == old(log) + [About(did, Register(hex, decodes, maxAge, now))]
      ensures k == if Acceptable(hex, decodes) then Some(NewKey(policy, hex, maxAge, now)) else None
      ensures forall d :: d != did ==> KeysOf(keys, d) == KeysOf(old(keys), d)
      ensures KeysOf(keys, did) == Insert(policy, KeysOf(old(keys), did), hex, decodes, maxAge, now)
      ensures k.Some? <==> |hex| == 64 && decodes
      ensures KeysOf(keys, did) == if k.Some? then [k.value] + KeysOf(old(keys), did) else KeysOf(old(keys), did)
      ensures k.Some? ==>
                && k.value.hex == hex && k.value.created == now && k.value.replacedBy == None
                && k.value.expires == now + 3600.0 * (if maxAge.Some? && maxAge.value != 0.0 then maxAge.value
                                                      else policy.maxAgeHours)
    {
      hide Agrees;
      ghost var before := keys;
      k := Add(did, hex, decodes, maxAge, now);
      log := log + [About(did, Register(hex, decodes, maxAge, now))];
      AgreesAbout(policy, before, old(log), did, Register(hex, decodes, maxAge, now), keys);
    }

    /** The loop of RotateKey: the first active key is retired. */
    method Retire(did: string, hex: string, now: real)
      modifies this`keys
      ensures KeysOf(keys, did) == RetireFirst(policy, KeysOf(old(keys), did), hex, now)
      ensures forall d :: d != did ==> KeysOf(keys, d) == KeysOf(old(keys), d)
    {
      if did !in keys {
        return;
      }
      hide RetireFirst, KeyRotation.Retire;
      var current := keys[did];
      var i := 0;
      while i < |current|
        invariant 0 <= i <= |current| && keys == old(keys)
        invariant forall j :: 0 <= j < i ==> !current[j].Active(now)
      {
        if current[i].Active(now) {
          RetireFirstAt(policy, current, i, hex, now);
          keys := keys[did := current[i := KeyRotation.Retire(policy, current[i], hex, now)]];
          return;
        }
        i := i + 1;
      }
      RetireFirstAt(policy, current, i, hex, now);
    }

    method RotateKey(did: string, hex: string, decodes: bool, now: real) returns (k: Option<Key>)
      requires Valid()
      modifies this
      ensures Valid() && log == old(log) + [About(did, Rotate(hex, decodes, now))]
      ensures k == if Acceptable(hex, decodes) then Some(NewKey(policy, hex, None, now)) else None
      ensures forall d :: d != did ==> KeysOf(keys, d) == KeysOf(old(keys), d)
      ensures KeysOf(keys, did) == Next(policy, KeysOf(old(keys), did), Rotate(hex, decodes, now))
    {
      hide Agrees, RetireFirst, NewKey;
      ghost var before := keys;
      ghost var op := Rotate(hex, decodes, now);
      Retire(did, hex, now);
      k := Add(did, hex, decodes, None, now);
      log := log + [About(did, op)];
      AgreesAbout(policy, before, old(log), did, op, keys);
    }

    /** The body of RegisterKey, which RotateKey runs too. */
    method Add(did: string, hex: string, decodes: bool, maxAge: Option<real>, now: real) returns (k: Option<Key>)
      modifies this`keys
      ensures k == if Acceptable(hex, decodes) then Some(NewKey(policy, hex, maxAge, now)) else None
      ensures KeysOf(keys, did) == Insert(policy, KeysOf(old(keys), did), hex, decodes, maxAge, now)
      ensures forall d :: d != did ==> KeysOf(keys, d) == KeysOf(old(keys), d)
    {
      if |hex| != 64 || !decodes {
        return None;
      }
      k := Some(NewKey(policy, hex, maxAge, now));
      if did !in keys {
        keys := keys[did := []];
      }
      keys := keys[did := [k.value] + keys[did]];
    }

    method GetTrustedKey(did: string, now: real) returns (r: Trust)
      requires Valid()
      ensures var trusted := Trusted(KeysOf(keys, did), now);
        r == if trusted.Some? then Granted(trusted.value) else if KeysOf(keys, did) == [] then NoKeys else NoneActive
      ensures r.Granted? <==> exists i: nat :: FirstInForce(KeysOf(keys, did), i, now)
      ensures forall i: nat :: FirstInForce(KeysOf(keys, did), i, now) ==> r == Granted(KeysOf(keys, did)[i])
    {
      TrustedIs(KeysOf(keys, did), now);
      var mine := if did in keys then keys[did] else [];
      if |mine| == 0 {
        return NoKeys;
      }
      var i := 0;
      while i < |mine|
        invariant 0 <= i <= |mine| && Trusted(mine, now) == Trusted(mine[i..], now)
      {
        assert mine[i..][0] == mine[i] && mine[i..][1..] == mine[i + 1..];
        if !mine[i].Expired(now) && !mine[i].Rotated() {
          return Granted(mine[i]);
        }
        i := i + 1;
      }
      return NoneActive;
    }

    /** Nothing is granted but under a key of the sender's that is still within its lifetime and, if it was
        rotated, its grace period. */
    method VerifyMessage(did: string, ed25519: bool, verifies: string -> bool, now: real) returns (r: Trust)
      requires Valid()
      ensures !ed25519 ==> r == NotEd25519
      ensures var verified := Verified(KeysOf(keys, did), now, verifies);
        ed25519 ==>
          r == if verified.Some? then Granted(verified.value)
               else if KeysOf(keys, did) == [] then NoKeys else NotVerified
      ensures r.Granted? <==>
                ed25519 && exists k :: k in KeysOf(keys, did) && now <= k.expires && verifies(k.hex)
      ensures ed25519 ==>
                forall i: nat :: FirstVerifying(KeysOf(keys, did), i, now, verifies) ==>
                  r == Granted(KeysOf(keys, did)[i])
      ensures r.Granted? ==>
                && verifies(r.key.hex) && now <= r.key.until
                && (r.key.rotatedAt.Some? ==> now <= r.key.rotatedAt.value + policy.graceHours * 3600.0)
    {
      hide Run, OpsOf;
      VerifiedIs(KeysOf(keys, did), now, verifies);
      if !ed25519 {
        return NotEd25519;
      }
      var mine := if did in keys then keys[did] else [];
      assert mine == KeysOf(keys, did) == Run(policy, OpsOf(log, did));
      NeverPastGrace(policy, OpsOf(log, did), now, verifies);
      VerifiedIsLive(mine, now, verifies);
      if |mine| == 0 {
        return NoKeys;
      }
      var i := 0;
      while i < |mine|
        invariant 0 <= i <= |mine| && Verified(mine, now, verifies) == Verified(mine[i..], now, verifies)
      {
        assert mine[i..][0] == mine[i] && mine[i..][1..] == mine[i + 1..];
        if !mine[i].Expired(now) && verifies(mine[i].hex) {
          return Granted(mine[i]);
        }
        i := i + 1;
      }
      return NotVerified;
    }

    method PurgeExpired(now: real)
      requires Valid()
      modifies this
      ensures Valid() && log == old(log) + [PurgeAll(now)]
      ensures forall d :: KeysOf(keys, d) == Live(KeysOf(old(keys), d), now)
      ensures LeavesUnexpired(old(keys), now, keys)
      ensures forall d :: d in keys ==> keys[d] != []
    {
      hide Agrees, LeavesUnexpired;
      ghost var before := keys;
      var todo := keys.Keys;
      while todo != {}
        invariant todo <= keys.Keys <= before.Keys && log == old(log)
        invariant forall d :: d in todo ==> keys[d] == before[d]
        invariant forall d :: d !in todo ==> KeysOf(keys, d) == Live(KeysOf(before, d), now)
        invariant forall d :: d in keys && d !in todo ==> keys[d] != []
        decreases todo
      {
        var did: string :| did in todo;
        todo := todo - {did};
        keys := keys[did := Live(keys[did], now)];
        if keys[did] == [] {
          keys := keys - {did};
        }
      }
      log := log + [PurgeAll(now)];
      AgreesPurge(policy, before, old(log), now, keys);
      PurgedIs(before, now, keys);
    }
  }
}
