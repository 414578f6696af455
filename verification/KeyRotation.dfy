/** The trusted keys of one DID, newest first, over whole runs of registering, rotating and purging. */
module KeyRotation {
  import opened Wrappers

  /** until keeps the expiry the key was registered with; the rest is what the store keeps. */
  datatype Key = Key(
    hex: string, created: real, expires: real, rotatedAt: Option<real>, replacedBy: Option<string>, until: real)
  {
    predicate Expired(now: real) { now > expires }
    predicate Rotated() { replacedBy.Some? }
    predicate Active(now: real) { !Expired(now) && !Rotated() }
  }

  datatype Policy = Policy(maxAgeHours: real, graceHours: real)

  /** decodes says whether the text given is hexadecimal. */
  datatype Op =
    | Register(hex: string, decodes: bool, maxAge: Option<real>, now: real)
    | Rotate(hex: string, decodes: bool, now: real)
    | Purge(now: real)

  predicate Acceptable(hex: string, decodes: bool) {
    |hex| == 64 && decodes
  }

  function Lifetime(p: Policy, maxAge: Option<real>): real {
    3600.0 * if maxAge.Some? && maxAge.value != 0.0 then maxAge.value else p.maxAgeHours
  }

  function NewKey(p: Policy, hex: string, maxAge: Option<real>, now: real): Key {
    Key(hex, now, now + Lifetime(p, maxAge), None, None, now + Lifetime(p, maxAge))
  }

  function Min(a: real, b: real): real {
    if b < a then b else a
  }

  function Retire(p: Policy, k: Key, hex: string, now: real): Key {
    k.(rotatedAt := Some(now), replacedBy := Some(hex), expires := Min(k.expires, now + p.graceHours * 3600.0))
  }

  /** The first active key goes into its grace period. */
  function RetireFirst(p: Policy, keys: seq<Key>, hex: string, now: real): seq<Key> {
    if keys == [] then []
    else if keys[0].Active(now) then [Retire(p, keys[0], hex, now)] + keys[1..]
    else [keys[0]] + RetireFirst(p, keys[1..], hex, now)
  }

  function Insert(p: Policy, keys: seq<Key>, hex: string, decodes: bool, maxAge: Option<real>, now: real): seq<Key> {
    if Acceptable(hex, decodes) then [NewKey(p, hex, maxAge, now)] + keys else keys
  }

  function Live(keys: seq<Key>, now: real): seq<Key> {
    if keys == [] then []
    else if keys[0].Expired(now) then Live(keys[1..], now)
    else [keys[0]] + Live(keys[1..], now)
  }

  function Next(p: Policy, keys: seq<Key>, op: Op): seq<Key> {
    match op
    case Register(hex, decodes, maxAge, now) => Insert(p, keys, hex, decodes, maxAge, now)
    case Rotate(hex, decodes, now) => Insert(p, RetireFirst(p, keys, hex, now), hex, decodes, None, now)
    case Purge(now) => Live(keys, now)
  }

  function Run(p: Policy, ops: seq<Op>): seq<Key> {
    if ops == [] then [] else Next(p, Run(p, ops[..|ops| - 1]), ops[|ops| - 1])
  }

  /** The clock readings never go back and end at now or before. */
  predicate Clocked(ops: seq<Op>, now: real) {
    ops != [] ==> ops[|ops| - 1].now <= now && Clocked(ops[..|ops| - 1], ops[|ops| - 1].now)
  }

  // ---------------------------------------------------------------------------
  // Lookups
  // ---------------------------------------------------------------------------

  /** get_trusted_key: the newest key that is neither expired nor rotated. */
  function Trusted(keys: seq<Key>, now: real): Option<Key> {
    if keys == [] then None else if keys[0].Active(now) then Some(keys[0]) else Trusted(keys[1..], now)
  }

  /** verify_message: the newest unexpired key the signature verifies under. */
  function Verified(keys: seq<Key>, now: real, verifies: string -> bool): Option<Key> {
    if keys == [] then None
    else if !keys[0].Expired(now) && verifies(keys[0].hex) then Some(keys[0])
    else Verified(keys[1..], now, verifies)
  }

  /** is_key_trusted: decided by the newest entry for the key. */
  function KeyTrusted(keys: seq<Key>, now: real, hex: string): bool {
    if keys == [] then false
    else if keys[0].hex == hex then !keys[0].Expired(now)
    else KeyTrusted(keys[1..], now, hex)
  }

  // ---------------------------------------------------------------------------
  // What each entry keeps
  // ---------------------------------------------------------------------------

  ghost predicate Entry(p: Policy, k: Key) {
    && (k.rotatedAt.Some? <==> k.Rotated())
    && k.expires == if k.rotatedAt.Some? then Min(k.until, k.rotatedAt.value + p.graceHours * 3600.0) else k.until
  }

  ghost predicate Entries(p: Policy, keys: seq<Key>) {
    forall k :: k in keys ==> Entry(p, k)
  }

  lemma {:induction false} RetireKeepsEntries(p: Policy, keys: seq<Key>, hex: string, now: real)
    requires Entries(p, keys)
    ensures Entries(p, RetireFirst(p, keys, hex, now))
  {
    if keys != [] {
      RetireKeepsEntries(p, keys[1..], hex, now);
      assert Entry(p, keys[0]);
    }
  }

  lemma {:induction false} LiveIsPart(keys: seq<Key>, now: real, k: Key)
    ensures k in Live(keys, now) <==> k in keys && !k.Expired(now)
  {
    if keys != [] {
      LiveIsPart(keys[1..], now, k);
    }
  }

  lemma {:induction false} RunKeepsEntries(p: Policy, ops: seq<Op>)
    ensures Entries(p, Run(p, ops))
  {
    if ops != [] {
      var front, op := Run(p, ops[..|ops| - 1]), ops[|ops| - 1];
      RunKeepsEntries(p, ops[..|ops| - 1]);
      match op {
        case Register(hex, decodes, maxAge, now) =>
        case Rotate(hex, decodes, now) => RetireKeepsEntries(p, front, hex, now);
        case Purge(now) =>
          forall k | k in Live(front, now)
            ensures Entry(p, k)
          {
            LiveIsPart(front, now, k);
          }
      }
    }
  }

  lemma {:induction false} VerifiedIsLive(keys: seq<Key>, now: real, verifies: string -> bool)
    ensures var v := Verified(keys, now, verifies);
      v.Some? ==> v.value in keys && !v.value.Expired(now) && verifies(v.value.hex)
  {
    if keys != [] {
      VerifiedIsLive(keys[1..], now, verifies);
    }
  }

  /** In no run is a message accepted under a key past the expiry it was registered with, or past the grace
      period behind its rotation. */
  lemma NeverPastGrace(p: Policy, ops: seq<Op>, now: real, verifies: string -> bool)
    ensures var v := Verified(Run(p, ops), now, verifies);
      v.Some? ==>
        && now <= v.value.until
        && (v.value.rotatedAt.Some? ==> now <= v.value.rotatedAt.value + p.graceHours * 3600.0)
  {
    hide Run;
    var keys := Run(p, ops);
    RunKeepsEntries(p, ops);
    VerifiedIsLive(keys, now, verifies);
    var v := Verified(keys, now, verifies);
    if v.Some? {
      assert Entry(p, v.value);
    }
  }

  /** A rotation to a well-formed key puts it in charge at once exactly when keys live at all. */
  lemma RotationTakesOver(p: Policy, keys: seq<Key>, hex: string, now: real)
    requires Acceptable(hex, true)
    ensures Trusted(Next(p, keys, Rotate(hex, true, now)), now) == Some(NewKey(p, hex, None, now)) <==>
            p.maxAgeHours >= 0.0
  {
    var after := Next(p, keys, Rotate(hex, true, now));
    var k := NewKey(p, hex, None, now);
    assert after[0] == k;
    if p.maxAgeHours < 0.0 {
      TrustedIsActive(after, now);
    }
  }

  lemma {:induction false} TrustedIsActive(keys: seq<Key>, now: real)
    ensures var t := Trusted(keys, now); t.Some? ==> t.value in keys && t.value.Active(now)
  {
    if keys != [] {
      TrustedIsActive(keys[1..], now);
    }
  }

  // ---------------------------------------------------------------------------
  // Lookups and rotations, said of the fields alone
  // ---------------------------------------------------------------------------

  /** Key i is the first that has neither passed its expiry nor been replaced. */
  predicate FirstInForce(keys: seq<Key>, i: nat, now: real) {
    && i < |keys| && now <= keys[i].expires && keys[i].replacedBy == None
    && forall j :: 0 <= j < i ==> now > keys[j].expires || keys[j].replacedBy.Some?
  }

  lemma {:induction false} TrustedIs(keys: seq<Key>, now: real)
    ensures Trusted(keys, now) == None <==> forall k :: k in keys ==> now > k.expires || k.replacedBy.Some?
    ensures forall i: nat :: FirstInForce(keys, i, now) ==> Trusted(keys, now) == Some(keys[i])
    ensures Trusted(keys, now).Some? ==> exists i: nat :: FirstInForce(keys, i, now)
  {
    if keys != [] {
      var rest := keys[1..];
      TrustedIs(rest, now);
      assert forall k :: k in keys <==> k == keys[0] || k in rest;
      if keys[0].Active(now) {
        assert FirstInForce(keys, 0, now);
      } else {
        forall i: nat | FirstInForce(keys, i, now) ensures i > 0 && FirstInForce(rest, i - 1, now) {
          assert forall j :: 0 <= j < i - 1 ==> rest[j] == keys[j + 1];
        }
        if i: nat :| FirstInForce(rest, i, now) {
          assert forall j :: 0 < j <= i ==> keys[j] == rest[j - 1];
          assert FirstInForce(keys, i + 1, now);
        }
      }
    }
  }

  /** Key i is the first unexpired one the signature verifies under. */
  predicate FirstVerifying(keys: seq<Key>, i: nat, now: real, verifies: string -> bool) {
    && i < |keys| && now <= keys[i].expires && verifies(keys[i].hex)
    && forall j :: 0 <= j < i ==> now > keys[j].expires || !verifies(keys[j].hex)
  }

  lemma {:induction false} VerifiedIs(keys: seq<Key>, now: real, verifies: string -> bool)
    ensures Verified(keys, now, verifies).Some? <==> exists k :: k in keys && now <= k.expires && verifies(k.hex)
    ensures forall i: nat :: FirstVerifying(keys, i, now, verifies) ==> Verified(keys, now, verifies) == Some(keys[i])
    ensures Verified(keys, now, verifies).Some? ==> exists i: nat :: FirstVerifying(keys, i, now, verifies)
  {
    if keys != [] {
      var rest := keys[1..];
      VerifiedIs(rest, now, verifies);
      assert forall k :: k in keys <==> k == keys[0] || k in rest;
      if now <= keys[0].expires && verifies(keys[0].hex) {
        assert FirstVerifying(keys, 0, now, verifies);
      } else {
        forall i: nat | FirstVerifying(keys, i, now, verifies)
          ensures i > 0 && FirstVerifying(rest, i - 1, now, verifies)
        {
          assert forall j :: 0 <= j < i - 1 ==> rest[j] == keys[j + 1];
        }
        if i: nat :| FirstVerifying(rest, i, now, verifies) {
          assert forall j :: 0 < j <= i ==> keys[j] == rest[j - 1];
          assert FirstVerifying(keys, i + 1, now, verifies);
        }
      }
    }
  }

  lemma {:induction false} RetireAt(p: Policy, keys: seq<Key>, hex: string, now: real, i: nat)
    requires FirstInForce(keys, i, now)
    ensures RetireFirst(p, keys, hex, now) == keys[i := Retire(p, keys[i], hex, now)]
  {
    hide Retire;
    if i > 0 {
      var rest := keys[1..];
      assert forall j :: 0 <= j < i ==> rest[j] == keys[j + 1];
      RetireAt(p, rest, hex, now, i - 1);
      assert keys[i := Retire(p, keys[i], hex, now)] == [keys[0]] + rest[i - 1 := Retire(p, rest[i - 1], hex, now)];
    } else {
      assert keys[0 := Retire(p, keys[0], hex, now)] == [Retire(p, keys[0], hex, now)] + keys[1..];
    }
  }

  lemma {:induction false} RetireNone(p: Policy, keys: seq<Key>, hex: string, now: real)
    requires forall k :: k in keys ==> now > k.expires || k.replacedBy.Some?
    ensures RetireFirst(p, keys, hex, now) == keys
  {
    hide Retire;
    if keys != [] {
      assert keys[0] in keys && forall k :: k in keys[1..] ==> k in keys;
      RetireNone(p, keys[1..], hex, now);
    }
  }

  /** A rotation replaces the first key in force, which keeps no more than its grace period of its lifetime. */
  lemma RetireIs(p: Policy, keys: seq<Key>, hex: string, now: real, i: nat)
    ensures (forall k :: k in keys ==> now > k.expires || k.replacedBy.Some?) ==> RetireFirst(p, keys, hex, now) == keys
    ensures FirstInForce(keys, i, now) ==>
              var end := now + p.graceHours * 3600.0;
              RetireFirst(p, keys, hex, now) ==
              keys[i := keys[i].(rotatedAt := Some(now), replacedBy := Some(hex),
                                 expires := if end < keys[i].expires then end else keys[i].expires)]
  {
    hide RetireFirst;
    if FirstInForce(keys, i, now) {
      RetireAt(p, keys, hex, now, i);
    }
    if forall k :: k in keys ==> now > k.expires || k.replacedBy.Some? {
      RetireNone(p, keys, hex, now);
    }
  }

  /** A replaced key stays as it is until it expires, whatever is registered, rotated or purged. */
  lemma {:induction false} ReplacedStays(p: Policy, ops: seq<Op>, more: seq<Op>, k: Key, now: real)
    requires k in Run(p, ops) && k.replacedBy.Some? && now <= k.expires
    requires forall i :: 0 <= i < |more| ==> more[i].now <= now
    ensures k in Run(p, ops + more)
  {
    if more == [] {
      assert ops + more == ops;
    } else {
      var front, op := more[..|more| - 1], more[|more| - 1];
      ReplacedStays(p, ops, front, k, now);
      assert ops + more == (ops + front) + [op];
      RunMore(p, ops + front, op);
      var keys := Run(p, ops + front);
      match op {
        case Register(_, _, _, _) =>
        case Rotate(hex, _, t) => ReplacedNotRetired(p, keys, hex, t, k);
        case Purge(t) => LiveIsPart(keys, t, k);
      }
    }
  }

  lemma {:induction false} ReplacedNotRetired(p: Policy, keys: seq<Key>, hex: string, now: real, k: Key)
    requires k in keys && k.replacedBy.Some?
    ensures k in RetireFirst(p, keys, hex, now)
  {
    if keys[0] != k {
      ReplacedNotRetired(p, keys[1..], hex, now, k);
    }
  }

  /** The grace period is honoured in every run: messages under a key that was in force when it was rotated at r are
      accepted until its expiry or the end of the grace period, whatever happens in between. */
  lemma GraceIsHonoured(p: Policy, ops: seq<Op>, hex: string, decodes: bool, r: real, more: seq<Op>, i: nat, now: real,
                        verifies: string -> bool)
    requires FirstInForce(Run(p, ops), i, r) && verifies(Run(p, ops)[i].hex)
    requires now <= Run(p, ops)[i].expires && now <= r + p.graceHours * 3600.0
    requires forall j :: 0 <= j < |more| ==> more[j].now <= now
    ensures Verified(Run(p, ops + [Rotate(hex, decodes, r)] + more), now, verifies).Some?
  {
    var keys, op := Run(p, ops), Rotate(hex, decodes, r);
    RetireIs(p, keys, hex, r, i);
    RunMore(p, ops, op);
    var retired := RetireFirst(p, keys, hex, r);
    var k := retired[i];
    assert k in retired && k in Run(p, ops + [op]);
    hide Run;
    ReplacedStays(p, ops + [op], more, k, now);
    VerifiedIs(Run(p, ops + [op] + more), now, verifies);
  }

  // ---------------------------------------------------------------------------
  // Purging changes no answer
  // ---------------------------------------------------------------------------

  function NoPurges(ops: seq<Op>): seq<Op> {
    if ops == [] then []
    else
      var front, last := NoPurges(ops[..|ops| - 1]), ops[|ops| - 1];
      if last.Purge? then front else front + [last]
  }

  lemma {:induction false} LiveTwice(keys: seq<Key>, now: real, later: real)
    requires now <= later
    ensures Live(Live(keys, now), later) == Live(keys, later)
  {
    if keys != [] {
      LiveTwice(keys[1..], now, later);
      LiveCons(keys[0], Live(keys[1..], now), later);
    }
  }

  lemma LiveCons(k: Key, keys: seq<Key>, now: real)
    ensures Live([k] + keys, now) == if k.Expired(now) then Live(keys, now) else [k] + Live(keys, now)
  {
    assert ([k] + keys)[1..] == keys;
  }

  /** Lookups see live keys only. */
  lemma {:induction false} LookupsSeeLive(keys: seq<Key>, now: real, verifies: string -> bool)
    ensures Trusted(Live(keys, now), now) == Trusted(keys, now)
    ensures Verified(Live(keys, now), now, verifies) == Verified(keys, now, verifies)
  {
    if keys != [] {
      LookupsSeeLive(keys[1..], now, verifies);
      var rest := Live(keys[1..], now);
      assert ([keys[0]] + rest)[1..] == rest;
    }
  }

  /** So does rotation: which key it retires is decided by the live ones. */
  lemma {:induction false} RetireSeesLive(p: Policy, keys: seq<Key>, hex: string, now: real)
    ensures Live(RetireFirst(p, keys, hex, now), now) == Live(RetireFirst(p, Live(keys, now), hex, now), now)
  {
    if keys != [] {
      var k, tail, rest := keys[0], keys[1..], Live(keys[1..], now);
      RetireSeesLive(p, tail, hex, now);
      assert ([k] + rest)[1..] == rest;
      if k.Active(now) {
        LiveCons(Retire(p, k, hex, now), tail, now);
        LiveCons(Retire(p, k, hex, now), rest, now);
        LiveTwice(tail, now, now);
      } else {
        LiveCons(k, RetireFirst(p, tail, hex, now), now);
        LiveCons(k, RetireFirst(p, rest, hex, now), now);
      }
    }
  }

  lemma NextSeesLive(p: Policy, a: seq<Key>, b: seq<Key>, op: Op)
    requires Live(a, op.now) == Live(b, op.now)
    ensures Live(Next(p, a, op), op.now) == Live(Next(p, b, op), op.now)
  {
    hide Live, RetireFirst, NewKey;
    match op {
      case Register(hex, decodes, maxAge, now) =>
        LiveCons(NewKey(p, hex, maxAge, now), a, now);
        LiveCons(NewKey(p, hex, maxAge, now), b, now);
      case Rotate(hex, decodes, now) =>
        RetireSeesLive(p, a, hex, now);
        RetireSeesLive(p, b, hex, now);
        LiveCons(NewKey(p, hex, None, now), RetireFirst(p, a, hex, now), now);
        LiveCons(NewKey(p, hex, None, now), RetireFirst(p, b, hex, now), now);
      case Purge(now) =>
    }
  }

  lemma LiveLater(a: seq<Key>, b: seq<Key>, now: real, later: real)
    requires Live(a, now) == Live(b, now) && now <= later
    ensures Live(a, later) == Live(b, later)
  {
    LiveTwice(a, now, later);
    LiveTwice(b, now, later);
  }

  lemma {:induction false} PurgesLeaveLive(p: Policy, ops: seq<Op>, now: real)
    requires Clocked(ops, now)
    ensures Live(Run(p, ops), now) == Live(Run(p, NoPurges(ops)), now)
  {
    hide Live, Next;
    if ops != [] {
      var front, op := ops[..|ops| - 1], ops[|ops| - 1];
      PurgesLeaveLive(p, front, op.now);
      var a, b := Run(p, front), Run(p, NoPurges(front));
      if op.Purge? {
        PurgeIsLive(p, a, op.now);
        LiveTwice(a, op.now, op.now);
      } else {
        NextSeesLive(p, a, b, op);
        assert (NoPurges(front) + [op])[..|NoPurges(front)|] == NoPurges(front);
      }
      LiveLater(Run(p, ops), Run(p, NoPurges(ops)), op.now, now);
    }
  }

  lemma PurgeIsLive(p: Policy, keys: seq<Key>, now: real)
    ensures Next(p, keys, Purge(now)) == Live(keys, now)
  {
  }

  /** Leaving out every purge of a run changes neither the key in charge nor the key any message verifies
      under, then or later. */
  lemma PurgingChangesNoAnswer(p: Policy, ops: seq<Op>, now: real, verifies: string -> bool)
    requires Clocked(ops, now)
    ensures Trusted(Run(p, ops), now) == Trusted(Run(p, NoPurges(ops)), now)
    ensures Verified(Run(p, ops), now, verifies) == Verified(Run(p, NoPurges(ops)), now, verifies)
  {
    PurgesLeaveLive(p, ops, now);
    LookupsSeeLive(Run(p, ops), now, verifies);
    LookupsSeeLive(Run(p, NoPurges(ops)), now, verifies);
  }

  /** The newest entry for a key. */
  function NewestFor(keys: seq<Key>, hex: string): Option<Key> {
    if keys == [] then None else if keys[0].hex == hex then Some(keys[0]) else NewestFor(keys[1..], hex)
  }

  lemma {:induction false} LiveTrusts(keys: seq<Key>, now: real, hex: string)
    ensures KeyTrusted(Live(keys, now), now, hex) <==> exists k :: k in keys && k.hex == hex && !k.Expired(now)
  {
    if keys != [] {
      var k, rest := keys[0], Live(keys[1..], now);
      LiveTrusts(keys[1..], now, hex);
      assert ([k] + rest)[1..] == rest;
      assert forall x :: x in keys <==> x == k || x in keys[1..];
    }
  }

  /** The direct question about a key is another matter: a purge changes its answer exactly when the newest
      entry for the key has expired and an older one has not. */
  lemma {:induction false} PurgeChangesKeyTrustedIff(keys: seq<Key>, now: real, hex: string)
    ensures KeyTrusted(Live(keys, now), now, hex) != KeyTrusted(keys, now, hex) <==>
            && NewestFor(keys, hex).Some? && NewestFor(keys, hex).value.Expired(now)
            && exists k :: k in keys && k.hex == hex && !k.Expired(now)
  {
    LiveTrusts(keys, now, hex);
    NewestDecides(keys, now, hex);
  }

  lemma {:induction false} NewestDecides(keys: seq<Key>, now: real, hex: string)
    ensures KeyTrusted(keys, now, hex) <==>
            NewestFor(keys, hex).Some? && !NewestFor(keys, hex).value.Expired(now)
    ensures NewestFor(keys, hex).Some? ==> NewestFor(keys, hex).value in keys && NewestFor(keys, hex).value.hex == hex
    ensures NewestFor(keys, hex).None? ==> forall k :: k in keys ==> k.hex != hex
  {
    if keys != [] {
      NewestDecides(keys[1..], now, hex);
      assert forall x :: x in keys <==> x == keys[0] || x in keys[1..];
    }
  }

  /** A run in which it does: one key registered for ten hours, and again for one, and purged after two. */
  lemma {:induction false} PurgeCanChangeKeyTrusted(p: Policy, hex: string)
    requires |hex| == 64
    ensures var ops := [Register(hex, true, Some(10.0), 0.0), Register(hex, true, Some(1.0), 0.0)];
      !KeyTrusted(Run(p, ops), 7200.0, hex) && KeyTrusted(Run(p, ops + [Purge(7200.0)]), 7200.0, hex)
  {
    hide Run, Live, NewKey;
    var a, b := Register(hex, true, Some(10.0), 0.0), Register(hex, true, Some(1.0), 0.0);
    var old_, new_ := NewKey(p, hex, Some(10.0), 0.0), NewKey(p, hex, Some(1.0), 0.0);
    RunMore(p, [], a);
    RunMore(p, [a], b);
    RunMore(p, [a, b], Purge(7200.0));
    assert [] + [a] == [a] && [a] + [b] == [a, b];
    assert [old_] + [] == [old_] && [new_] + [old_] == [new_, old_];
    NoKeysYet(p, 7200.0);
    assert Run(p, [a]) == [old_];
    assert Run(p, [a, b]) == [new_, old_];
    TenAndOneHour(p, hex);
    LiveCons(old_, [], 7200.0);
    LiveCons(new_, [old_], 7200.0);
  }

  lemma NoKeysYet(p: Policy, now: real)
    ensures Run(p, []) == [] && Live([], now) == []
  {
  }

  lemma TenAndOneHour(p: Policy, hex: string)
    ensures var long, short := NewKey(p, hex, Some(10.0), 0.0), NewKey(p, hex, Some(1.0), 0.0);
      !long.Expired(7200.0) && short.Expired(7200.0) && long.hex == hex && short.hex == hex
  {
  }

  lemma RunMore(p: Policy, ops: seq<Op>, op: Op)
    ensures Run(p, ops + [op]) == Next(p, Run(p, ops), op)
  {
    assert (ops + [op])[..|ops|] == ops;
  }

  // ---------------------------------------------------------------------------
  // One key in charge
  // ---------------------------------------------------------------------------

  function ActiveCount(keys: seq<Key>, now: real): nat {
    if keys == [] then 0 else (if keys[0].Active(now) then 1 else 0) + ActiveCount(keys[1..], now)
  }

  lemma {:induction false} ActiveShrinks(keys: seq<Key>, now: real, later: real)
    requires now <= later
    ensures ActiveCount(keys, later) <= ActiveCount(keys, now)
  {
    if keys != [] {
      ActiveShrinks(keys[1..], now, later);
    }
  }

  lemma ActiveCons(k: Key, keys: seq<Key>, now: real)
    ensures ActiveCount([k] + keys, now) == (if k.Active(now) then 1 else 0) + ActiveCount(keys, now)
  {
    assert ([k] + keys)[1..] == keys;
  }

  lemma {:induction false} RetireTakesOne(p: Policy, keys: seq<Key>, hex: string, now: real)
    ensures ActiveCount(RetireFirst(p, keys, hex, now), now) ==
            if ActiveCount(keys, now) == 0 then 0 else ActiveCount(keys, now) - 1
  {
    if keys != [] {
      RetireTakesOne(p, keys[1..], hex, now);
      ActiveCons(Retire(p, keys[0], hex, now), keys[1..], now);
      ActiveCons(keys[0], RetireFirst(p, keys[1..], hex, now), now);
    }
  }

  lemma {:induction false} LiveKeepsActive(keys: seq<Key>, now: real)
    ensures ActiveCount(Live(keys, now), now) == ActiveCount(keys, now)
  {
    if keys != [] {
      LiveKeepsActive(keys[1..], now);
      ActiveCons(keys[0], Live(keys[1..], now), now);
    }
  }

  /** A registration adds an active key; a rotation needs one to exist and adds none to it. */
  function Room(ops: seq<Op>): nat {
    if ops == [] then 0
    else
      var front, last := Room(ops[..|ops| - 1]), ops[|ops| - 1];
      if last.Register? && Acceptable(last.hex, last.decodes) then front + 1
      else if last.Rotate? && Acceptable(last.hex, last.decodes) && front == 0 then 1
      else front
  }

  lemma {:induction false} RoomAfterOne(ops: seq<Op>)
    requires forall k :: 0 < k < |ops| ==> !ops[k].Register?
    ensures Room(ops) <= 1
  {
    if ops != [] {
      RoomAfterOne(ops[..|ops| - 1]);
      assert |ops| == 1 ==> Room(ops[..0]) == 0;
    }
  }

  /** A DID registered once and from then on only rotated and purged never has two active keys. */
  lemma OneActiveKey(p: Policy, ops: seq<Op>, now: real)
    requires Clocked(ops, now) && forall k :: 0 < k < |ops| ==> !ops[k].Register?
    ensures ActiveCount(Run(p, ops), now) <= 1
  {
    ActiveBound(p, ops, now);
    RoomAfterOne(ops);
  }

  /** However often it rotates, a DID has no more active keys than it has registered (or started with). */
  lemma {:induction false} ActiveBound(p: Policy, ops: seq<Op>, now: real)
    requires Clocked(ops, now)
    ensures ActiveCount(Run(p, ops), now) <= Room(ops)
  {
    hide ActiveCount, NewKey;
    if ops != [] {
      var front, op := ops[..|ops| - 1], ops[|ops| - 1];
      var keys := Run(p, front);
      ActiveBound(p, front, op.now);
      match op {
        case Register(hex, decodes, maxAge, t) => ActiveCons(NewKey(p, hex, maxAge, t), keys, t);
        case Rotate(hex, decodes, t) =>
          RetireTakesOne(p, keys, hex, t);
          ActiveCons(NewKey(p, hex, None, t), RetireFirst(p, keys, hex, t), t);
        case Purge(t) => LiveKeepsActive(keys, t);
      }
      ActiveShrinks(Run(p, ops), op.now, now);
    } else {
      NoneActive(now);
    }
  }

  lemma NoneActive(now: real)
    ensures ActiveCount([], now) == 0
  {
  }

  /** A rotation to a malformed key raises, and still retires the key in charge: it leaves the keys as they
      were exactly when none was active. */
  lemma {:induction false} FailedRotationIsHarmlessIff(p: Policy, keys: seq<Key>, hex: string, decodes: bool, now: real)
    requires !Acceptable(hex, decodes)
    ensures Next(p, keys, Rotate(hex, decodes, now)) == keys <==> Trusted(keys, now).None?
  {
    RetireChanges(p, keys, hex, now);
  }

  /** A run in which it loses the only key: registered, then rotated to nothing. */
  lemma FailedRotationLosesTheKey(p: Policy, hex: string)
    requires |hex| == 64 && p.maxAgeHours >= 0.0
    ensures var register, rotate := Register(hex, true, None, 0.0), Rotate("", false, 0.0);
      Trusted(Run(p, [register]), 0.0).Some? && Trusted(Run(p, [register, rotate]), 0.0).None?
  {
    var register, rotate := Register(hex, true, None, 0.0), Rotate("", false, 0.0);
    var k := NewKey(p, hex, None, 0.0);
    RunMore(p, [], register);
    RunMore(p, [register], rotate);
    assert [] + [register] == [register] && [register] + [rotate] == [register, rotate];
    assert [k] + [] == [k];
    assert Run(p, [register]) == [k] && k.Active(0.0);
    assert RetireFirst(p, [k], "", 0.0) == [Retire(p, k, "", 0.0)];
  }

  lemma {:induction false} RetireChanges(p: Policy, keys: seq<Key>, hex: string, now: real)
    ensures RetireFirst(p, keys, hex, now) == keys <==> Trusted(keys, now).None?
  {
    if keys != [] {
      RetireChanges(p, keys[1..], hex, now);
      if keys[0].Active(now) {
        assert RetireFirst(p, keys, hex, now)[0].Rotated();
      } else {
        assert RetireFirst(p, keys, hex, now)[1..] == RetireFirst(p, keys[1..], hex, now);
      }
    }
  }
}
