/** The strict message verifier and its replay guarantee over whole runs. */
module Verifier {
  import opened Wrappers
  import opened SeenLog
  import opened ReplayGuards

  /** The key identifier of a message: none, a text, or another value, of which only its truth and whether it can
      be looked up in a dictionary matter. */
  datatype Kid = NoKid | TextKid(text: string) | OtherKid(truthy: bool, hashable: bool)

  /** What the verifier reads of a message. A signature or time stamp of another type is None. */
  datatype Message = Message(
    roar: string, id: string, fromDid: string, toDid: string,
    signature: Option<string>, kid: Kid, authTimestamp: Option<real>)

  datatype Verdict =
    | Accepted
    | UnsupportedProtocolVersion
    | MissingOrInvalidSignature
    | SchemeNotAllowed
    | UnknownKeyIdentifier
    | RecipientMismatch
    | MissingOrInvalidTimestamp
    | MessageExpired
    | MessageFromFuture
    | ReplayDetected
    | MissingHmacSecret
    | InvalidHmacSignature
    | NoTrustedKey
    | InvalidEd25519Signature
    | UnsupportedScheme
    | Raised

  /** The policy, and the cryptography as two tests of a message under a key. An empty recipient or
      secret stands for none. */
  datatype Policy = Policy(
    hmacSecret: string, hmacSecrets: map<string, string>, expectedRecipient: string,
    maxAge: real, maxFutureSkew: real, allowed: set<string>, trustedKeys: map<string, string>,
    hmacOk: (Message, string) -> bool, ed25519Ok: (Message, string) -> bool)

  const HMAC := "hmac-sha256"
  const ED25519 := "ed25519"

  /** The part of a signature in front of its first colon. */
  function Scheme(signature: string): string {
    if signature == "" || signature[0] == ':' then "" else [signature[0]] + Scheme(signature[1..])
  }

  predicate Prefix(p: string, s: string) {
    |p| <= |s| && s[..|p|] == p
  }

  predicate Truthy(kid: Kid) {
    (kid.TextKid? && kid.text != "") || (kid.OtherKid? && kid.truthy)
  }

  /** Everything that is checked in front of the replay guard. */
  function BeforeGuard(p: Policy, m: Message, now: real): Verdict {
    if !Prefix("1.", m.roar) then UnsupportedProtocolVersion
    else if m.signature.None? || ':' !in m.signature.value then MissingOrInvalidSignature
    else
      var scheme := Scheme(m.signature.value);
      if scheme !in p.allowed then SchemeNotAllowed
      else if m.kid.TextKid? && scheme == HMAC && p.hmacSecrets != map[] && m.kid.text !in p.hmacSecrets
      then UnknownKeyIdentifier
      else if m.kid.TextKid? && scheme == ED25519 && m.kid.text !in p.trustedKeys then UnknownKeyIdentifier
      else if p.expectedRecipient != "" && m.toDid != p.expectedRecipient then RecipientMismatch
      else if m.authTimestamp.None? then MissingOrInvalidTimestamp
      else
        var age := now - m.authTimestamp.value;
        if age > p.maxAge then MessageExpired
        else if -age > p.maxFutureSkew then MessageFromFuture
        else Accepted
  }

  /** The signature checks behind the guard. */
  function BehindGuard(p: Policy, m: Message): Verdict
    requires m.signature.Some?
  {
    var scheme := Scheme(m.signature.value);
    if scheme == HMAC then
      var looksUp := Truthy(m.kid) && p.hmacSecrets != map[];
      var secret :=
        if !looksUp then p.hmacSecret
        else if m.kid.TextKid? && m.kid.text in p.hmacSecrets then p.hmacSecrets[m.kid.text] else "";
      if looksUp && m.kid == OtherKid(true, false) then Raised
      else if secret == "" then MissingHmacSecret
      else if p.hmacOk(m, secret) then Accepted else InvalidHmacSignature
    else if scheme == ED25519 then
      if m.fromDid !in p.trustedKeys || p.trustedKeys[m.fromDid] == "" then NoTrustedKey
      else if p.ed25519Ok(m, p.trustedKeys[m.fromDid]) then Accepted else InvalidEd25519Signature
    else UnsupportedScheme
  }

  /** One arrival with the three clock readings that verifying it takes. */
  datatype Arrival = Arrival(message: Message, now: real, evictNow: real, checkNow: real)

  /** What an arrival means for the guard. */
  function GuardStep(p: Policy, a: Arrival): Step {
    if BeforeGuard(p, a.message, a.now) == Accepted then Present(a.message.id, a.evictNow, a.checkNow) else Other
  }

  function Verify(p: Policy, r: Rules, s: seq<Seen>, a: Arrival): Verdict {
    var before := BeforeGuard(p, a.message, a.now);
    if before != Accepted then before
    else if Duplicate(r, s, a.message.id, a.evictNow, a.checkNow) then ReplayDetected
    else BehindGuard(p, a.message)
  }

  // ---------------------------------------------------------------------------
  // The verdicts, said of the message alone
  // ---------------------------------------------------------------------------

  /** The signature begins with the scheme and a colon. */
  predicate Under(m: Message, scheme: string) {
    m.signature.Some? && |scheme| < |m.signature.value|
      && m.signature.value[..|scheme|] == scheme && m.signature.value[|scheme|] == ':'
  }

  lemma {:induction false} SchemeIs(signature: string)
    requires ':' in signature
    ensures var scheme := Scheme(signature);
      ':' !in scheme && |scheme| < |signature| && signature[..|scheme|] == scheme && signature[|scheme|] == ':'
  {
    if signature[0] != ':' {
      assert signature == [signature[0]] + signature[1..];
      SchemeIs(signature[1..]);
      var rest := Scheme(signature[1..]);
      assert signature[..|rest| + 1] == [signature[0]] + signature[1..][..|rest|];
    }
  }

  lemma SplitIsUnique(signature: string, a: string, b: string)
    requires ':' !in a && |a| < |signature| && signature[..|a|] == a && signature[|a|] == ':'
    requires ':' !in b && |b| < |signature| && signature[..|b|] == b && signature[|b|] == ':'
    ensures a == b
  {
    forall k | 0 <= k < |a| ensures signature[k] != ':' {
      assert a[k] == signature[k];
    }
    forall k | 0 <= k < |b| ensures signature[k] != ':' {
      assert b[k] == signature[k];
    }
  }

  lemma UnderIs(m: Message, scheme: string)
    requires ':' !in scheme
    ensures Under(m, scheme) <==> m.signature.Some? && ':' in m.signature.value && Scheme(m.signature.value) == scheme
  {
    hide Scheme;
    if m.signature.Some? && ':' in m.signature.value {
      SchemeIs(m.signature.value);
      if Under(m, scheme) {
        SplitIsUnique(m.signature.value, scheme, Scheme(m.signature.value));
      }
    }
    assert Under(m, scheme) ==> m.signature.value[|scheme|] in m.signature.value;
  }

  /** The secret an HMAC message is checked under: the one its key identifier names, where identifiers are in use
      and it brings one that counts, else the common one. */
  predicate Selects(p: Policy, m: Message, secret: string) {
    if p.hmacSecrets == map[] || m.kid == NoKid || m.kid == TextKid("") || (m.kid.OtherKid? && !m.kid.truthy)
    then secret == p.hmacSecret
    else m.kid.TextKid? && m.kid.text in p.hmacSecrets && secret == p.hmacSecrets[m.kid.text]
  }

  /** Signed under HMAC with a secret of the policy. */
  ghost predicate SignedByHmac(p: Policy, m: Message) {
    && Under(m, "hmac-sha256") && "hmac-sha256" in p.allowed
    && (m.kid.TextKid? && p.hmacSecrets != map[] ==> m.kid.text in p.hmacSecrets)
    && exists secret :: Selects(p, m, secret) && secret != "" && p.hmacOk(m, secret)
  }

  /** Signed under Ed25519 with the sender's trusted key. */
  predicate SignedByKey(p: Policy, m: Message) {
    && Under(m, "ed25519") && "ed25519" in p.allowed
    && (m.kid.TextKid? ==> m.kid.text in p.trustedKeys)
    && m.fromDid in p.trustedKeys && p.trustedKeys[m.fromDid] != "" && p.ed25519Ok(m, p.trustedKeys[m.fromDid])
  }

  /** A version 1 message to this recipient, from inside the time window. */
  predicate Current(p: Policy, m: Message, now: real) {
    && |m.roar| >= 2 && m.roar[..2] == "1."
    && (p.expectedRecipient != "" ==> m.toDid == p.expectedRecipient)
    && m.authTimestamp.Some?
    && now - p.maxAge <= m.authTimestamp.value <= now + p.maxFutureSkew
  }

  lemma SignedIff(p: Policy, m: Message, now: real)
    ensures BeforeGuard(p, m, now) == Accepted && BehindGuard(p, m) == Accepted <==>
            Current(p, m, now) && (SignedByHmac(p, m) || SignedByKey(p, m))
  {
    UnderIs(m, "hmac-sha256");
    UnderIs(m, "ed25519");
    hide Scheme, Under;
    assert "ed25519"[0] != "hmac-sha256"[0];
    if m.signature.Some? && Scheme(m.signature.value) == HMAC
       && (m.kid.TextKid? && p.hmacSecrets != map[] ==> m.kid.text in p.hmacSecrets) {
      HmacIff(p, m);
    }
  }

  lemma HmacIff(p: Policy, m: Message)
    requires m.signature.Some? && Scheme(m.signature.value) == HMAC
    requires m.kid.TextKid? && p.hmacSecrets != map[] ==> m.kid.text in p.hmacSecrets
    ensures BehindGuard(p, m) == Accepted <==>
            exists secret :: Selects(p, m, secret) && secret != "" && p.hmacOk(m, secret)
  {
    hide Scheme;
    var secret :=
      if p.hmacSecrets != map[] && m.kid.TextKid? && m.kid.text != "" then p.hmacSecrets[m.kid.text] else p.hmacSecret;
    if p.hmacSecrets == map[] || !m.kid.OtherKid? || !m.kid.truthy {
      assert forall other :: Selects(p, m, other) <==> other == secret;
    }
  }

  /** Accepted exactly when the message is current, its id is not held by the guard, and it is signed. */
  lemma AcceptedIff(p: Policy, r: Rules, s: seq<Seen>, a: Arrival)
    requires Ordered(s) && Distinct(s) && r.python && a.evictNow <= a.checkNow
    ensures Verify(p, r, s, a) == Accepted <==>
            && Current(p, a.message, a.now)
            && (forall e :: e in s && e.key == a.message.id ==> a.checkNow - e.at >= r.ttl)
            && (SignedByHmac(p, a.message) || SignedByKey(p, a.message))
  {
    SignedIff(p, a.message, a.now);
    DuplicateIs(r, s, a.message.id, a.evictNow, a.checkNow);
    hide Duplicate, BeforeGuard, BehindGuard, Current, SignedByHmac, SignedByKey;
  }

  predicate Versioned(m: Message) {
    |m.roar| >= 2 && m.roar[..2] == "1."
  }

  function SchemeOf(m: Message): string {
    if m.signature.Some? && ':' in m.signature.value then Scheme(m.signature.value) else ":"
  }

  predicate KidKnown(p: Policy, m: Message) {
    m.kid.TextKid? ==>
      && (SchemeOf(m) == "hmac-sha256" && p.hmacSecrets != map[] ==> m.kid.text in p.hmacSecrets)
      && (SchemeOf(m) == "ed25519" ==> m.kid.text in p.trustedKeys)
  }

  predicate Addressed(p: Policy, m: Message) {
    p.expectedRecipient == "" || p.expectedRecipient == m.toDid
  }

  /** How many of the checks in front of the guard pass before one fails: the version, the form of the signature, its
      scheme, the key identifier, the recipient, the time stamp, its age, and its not being ahead. */
  function ChecksPassed(p: Policy, m: Message, now: real): nat {
    if !Versioned(m) then 0
    else if SchemeOf(m) == ":" then 1
    else if SchemeOf(m) !in p.allowed then 2
    else if !KidKnown(p, m) then 3
    else if !Addressed(p, m) then 4
    else if m.authTimestamp.None? then 5
    else if now - m.authTimestamp.value > p.maxAge then 6
    else if m.authTimestamp.value - now > p.maxFutureSkew then 7
    else 8
  }

  lemma SchemeOfIs(m: Message)
    ensures SchemeOf(m) == ":" <==> m.signature.None? || ':' !in m.signature.value
    ensures SchemeOf(m) != ":" ==> Under(m, SchemeOf(m)) && ':' !in SchemeOf(m)
  {
    hide Scheme;
    if m.signature.Some? && ':' in m.signature.value {
      SchemeIs(m.signature.value);
    }
  }

  /** Which refusal comes, by the first check that fails. */
  lemma RefusalIs(p: Policy, m: Message, now: real)
    ensures var n := ChecksPassed(p, m, now);
      BeforeGuard(p, m, now) ==
        if n == 0 then UnsupportedProtocolVersion else if n == 1 then MissingOrInvalidSignature
        else if n == 2 then SchemeNotAllowed else if n == 3 then UnknownKeyIdentifier
        else if n == 4 then RecipientMismatch else if n == 5 then MissingOrInvalidTimestamp
        else if n == 6 then MessageExpired else if n == 7 then MessageFromFuture else Accepted
  {
    SchemeOfIs(m);
    hide Scheme;
  }

  /** Behind the guard: the secret or key that is missing, or the signature that fails under it. */
  lemma RefusalBehindIs(p: Policy, m: Message)
    requires m.signature.Some? && ':' in m.signature.value
    ensures var v, key := BehindGuard(p, m), if m.fromDid in p.trustedKeys then p.trustedKeys[m.fromDid] else "";
      && (Under(m, "ed25519") ==>
            v == if key == "" then NoTrustedKey
                 else if p.ed25519Ok(m, key) then Accepted else InvalidEd25519Signature)
      && (v == UnsupportedScheme <==> !Under(m, "hmac-sha256") && !Under(m, "ed25519"))
      && (v == InvalidHmacSignature ==>
            exists secret :: Selects(p, m, secret) && secret != "" && !p.hmacOk(m, secret))
      && (v == MissingHmacSecret ==> !exists secret :: Selects(p, m, secret) && secret != "")
      && (v == Raised ==> m.kid == OtherKid(true, false))
  {
    UnderIs(m, "hmac-sha256");
    UnderIs(m, "ed25519");
    hide Scheme, Under;
    assert "ed25519"[0] != "hmac-sha256"[0];
    if Scheme(m.signature.value) == HMAC {
      HmacRefusal(p, m);
    }
  }

  lemma HmacRefusal(p: Policy, m: Message)
    requires m.signature.Some? && Scheme(m.signature.value) == HMAC
    ensures BehindGuard(p, m) == InvalidHmacSignature ==>
              exists secret :: Selects(p, m, secret) && secret != "" && !p.hmacOk(m, secret)
    ensures BehindGuard(p, m) == MissingHmacSecret ==> !exists secret :: Selects(p, m, secret) && secret != ""
  {
    hide Scheme;
    if BehindGuard(p, m) == InvalidHmacSignature {
      var byKid := p.hmacSecrets != map[] && m.kid.TextKid? && m.kid.text != "" && m.kid.text in p.hmacSecrets;
      assert Selects(p, m, if byKid then p.hmacSecrets[m.kid.text] else p.hmacSecret);
    }
  }

  /** The guard records the id of every message that passes the checks in front of it and is not a repetition, before
      its signature is looked at; no other message touches it but for the sweep. */
  lemma GuardIsWritten(p: Policy, r: Rules, s: seq<Seen>, a: Arrival)
    requires r.cap >= 1
    ensures var v, t := Verify(p, r, s, a), Next(r, s, GuardStep(p, a));
      if ChecksPassed(p, a.message, a.now) < 8 then t == s
      else if v == ReplayDetected then t == DropOld(r, s, a.evictNow)
      else t != [] && t[|t| - 1] == Seen(a.message.id, a.checkNow)
  {
    RefusalIs(p, a.message, a.now);
    RecordIs(r, DropOld(r, s, a.evictNow), a.message.id, a.checkNow);
    BehindIsNoRepetition(p, a.message);
    hide BeforeGuard, BehindGuard, DropOld, Record, Duplicate, ChecksPassed;
  }

  lemma BehindIsNoRepetition(p: Policy, m: Message)
    ensures m.signature.Some? ==> BehindGuard(p, m) != ReplayDetected
  {
  }

  class StrictMessageVerifier {
    const policy: Policy
    const replayGuard: PythonGuard

    constructor (policy: Policy, replayGuard: PythonGuard)
      ensures this.policy == policy && this.replayGuard == replayGuard
    {
      this.policy, this.replayGuard := policy, replayGuard;
    }

    /** The cascade of checks; the guard is consulted, and written, before the signature is checked. */
    method VerifyMessage(m: Message, now: real, evictNow: real, checkNow: real) returns (v: Verdict)
      requires replayGuard.Valid()
      modifies replayGuard
      ensures replayGuard.Valid()
      ensures var a := Arrival(m, now, evictNow, checkNow);
        && v == Verify(policy, replayGuard.RulesOf(), old(replayGuard.seen), a)
        && replayGuard.seen == Next(replayGuard.RulesOf(), old(replayGuard.seen), GuardStep(policy, a))
      ensures Ordered(old(replayGuard.seen)) && evictNow <= checkNow ==>
                (v == Accepted <==>
                  && Current(policy, m, now) && (SignedByHmac(policy, m) || SignedByKey(policy, m))
                  && forall e :: e in old(replayGuard.seen) && e.key == m.id ==> checkNow - e.at >= replayGuard.ttl)
    {
      if Ordered(replayGuard.seen) && evictNow <= checkNow {
        AcceptedIff(policy, replayGuard.RulesOf(), replayGuard.seen, Arrival(m, now, evictNow, checkNow));
      }
      hide SignedByHmac, SignedByKey, Current, Ordered;
      hide Duplicate, DropOld, Record;
      if m.roar == "" || !Prefix("1.", m.roar) {
        return UnsupportedProtocolVersion;
      }
      if m.signature.None? || ':' !in m.signature.value {
        return MissingOrInvalidSignature;
      }
      var scheme := Scheme(m.signature.value);
      if scheme !in policy.allowed {
        return SchemeNotAllowed;
      }
      if m.kid.TextKid? {
        if scheme == HMAC && policy.hmacSecrets != map[] {
          if m.kid.text !in policy.hmacSecrets {
            return UnknownKeyIdentifier;
          }
        } else if scheme == ED25519 && m.kid.text !in policy.trustedKeys {
          return UnknownKeyIdentifier;
        }
      }
      if policy.expectedRecipient != "" && m.toDid != policy.expectedRecipient {
        return RecipientMismatch;
      }
      if m.authTimestamp.None? {
        return MissingOrInvalidTimestamp;
      }
      var age := now - m.authTimestamp.value;
      if age > policy.maxAge {
        return MessageExpired;
      }
      if -age > policy.maxFutureSkew {
        return MessageFromFuture;
      }
      var duplicate := replayGuard.IsDuplicate(m.id, evictNow, checkNow);
      if duplicate {
        return ReplayDetected;
      }
      if scheme == HMAC {
        var secret := policy.hmacSecret;
        if Truthy(m.kid) && policy.hmacSecrets != map[] {
          if m.kid.OtherKid? && !m.kid.hashable {
            return Raised;
          }
          secret := if m.kid.TextKid? && m.kid.text in policy.hmacSecrets then policy.hmacSecrets[m.kid.text] else "";
        }
        if secret == "" {
          return MissingHmacSecret;
        }
        return if policy.hmacOk(m, secret) then Accepted else InvalidHmacSignature;
      }
      if scheme == ED25519 {
        if m.fromDid !in policy.trustedKeys || policy.trustedKeys[m.fromDid] == "" {
          return NoTrustedKey;
        }
        return if policy.ed25519Ok(m, policy.trustedKeys[m.fromDid]) then Accepted else InvalidEd25519Signature;
      }
      return UnsupportedScheme;
    }
  }

  // ---------------------------------------------------------------------------
  // Whole runs
  // ---------------------------------------------------------------------------

  function GuardSteps(p: Policy, run: seq<Arrival>): (steps: seq<Step>)
    ensures |steps| == |run|
    ensures forall k :: 0 <= k < |run| ==> steps[k] == GuardStep(p, run[k])
  {
    seq(|run|, k requires 0 <= k < |run| => GuardStep(p, run[k]))
  }

  /** The verdict on arrival k of a run that began with an empty guard. */
  function VerdictAt(p: Policy, r: Rules, run: seq<Arrival>, k: nat): Verdict
    requires k < |run|
  {
    Verify(p, r, After(r, GuardSteps(p, run)[..k]), run[k])
  }

  /** Clock readings do not go back, and no verification takes longer than delay. */
  predicate Timely(run: seq<Arrival>, delay: real) {
    && (forall k :: 0 <= k < |run| ==> run[k].now <= run[k].evictNow <= run[k].checkNow <= run[k].now + delay)
    && (forall k :: 0 <= k < |run| - 1 ==> run[k].checkNow <= run[k + 1].now)
  }

  /** The ids other than id that were newly recorded strictly between arrivals i and j. */
  function RecordedBetween(p: Policy, r: Rules, run: seq<Arrival>, i: nat, j: nat, id: string): set<string>
    requires j <= |run|
  {
    OthersBetween(r, GuardSteps(p, run), i, j, id)
  }

  lemma {:induction false} RunIsClocked(p: Policy, run: seq<Arrival>, delay: real, j: nat, last: real)
    requires Timely(run, delay) && j <= |run|
    requires j > 0 ==> run[j - 1].checkNow <= last
    ensures Clocked(GuardSteps(p, run)[..j], last)
    decreases j
  {
    hide BeforeGuard;
    if j > 0 {
      var steps := GuardSteps(p, run)[..j];
      assert steps[..j - 1] == GuardSteps(p, run)[..j - 1] && steps[j - 1] == GuardStep(p, run[j - 1]);
      RunIsClocked(p, run, delay, j - 1, run[j - 1].evictNow);
      RunIsClocked(p, run, delay, j - 1, last);
    }
  }

  /** In any run, a message id with one auth timestamp is accepted at most once, unless the guard's whole
      capacity of other ids was recorded in between: provided the guard remembers for longer than the
      time window is wide. */
  lemma AcceptedOnce(p: Policy, r: Rules, run: seq<Arrival>, delay: real, i: nat, j: nat)
    requires r.python && Timely(run, delay)
    requires r.ttl > p.maxAge + p.maxFutureSkew + delay
    requires i < j < |run|
    requires run[i].message.id == run[j].message.id
    requires run[i].message.authTimestamp == run[j].message.authTimestamp
    requires VerdictAt(p, r, run, i) == Accepted && VerdictAt(p, r, run, j) == Accepted
    ensures |RecordedBetween(p, r, run, i, j, run[i].message.id)| >= r.cap
  {
    hide Duplicate, BehindGuard;
    var steps := GuardSteps(p, run);
    var a, b := run[i], run[j];
    assert Records(r, After(r, steps[..i]), steps[i]);
    assert Since(r, steps, i, j, a.message.id, a.checkNow);
    RunIsClocked(p, run, delay, j + 1, b.checkNow);
    assert b.checkNow - a.checkNow < r.ttl;
    PresentedAgain(r, steps, i, j, a.message.id, a.checkNow);
  }

  /** As the server wires it: 300 s of age, 30 s of skew, 600 s of memory, 10000 ids. */
  lemma ServerAcceptsOnce(p: Policy, run: seq<Arrival>, i: nat, j: nat)
    requires p.maxAge == 300.0 && p.maxFutureSkew == 30.0 && Timely(run, 269.0) && i < j < |run|
    requires run[i].message.id == run[j].message.id
    requires run[i].message.authTimestamp == run[j].message.authTimestamp
    requires |RecordedBetween(p, Rules(10_000, 600.0, true), run, i, j, run[i].message.id)| < 10_000
    ensures var r := Rules(10_000, 600.0, true);
      !(VerdictAt(p, r, run, i) == Accepted && VerdictAt(p, r, run, j) == Accepted)
  {
    var r := Rules(10_000, 600.0, true);
    hide VerdictAt, RecordedBetween, Timely;
    if VerdictAt(p, r, run, i) == Accepted && VerdictAt(p, r, run, j) == Accepted {
      AcceptedOnce(p, r, run, 269.0, i, j);
    }
  }

  /** An arrival at which all three clock readings agree. */
  function Instant(m: Message, now: real): Arrival {
    Arrival(m, now, now, now)
  }

  /** The bound is exact: a guard that remembers no longer than the window is wide accepts the same message
      at the first and at the last moment of its window, with nothing in between. */
  lemma ShortMemoryAcceptsTwice(p: Policy, r: Rules, m: Message)
    requires r.python && r.ttl <= p.maxAge + p.maxFutureSkew && p.maxAge + p.maxFutureSkew >= 0.0
    requires m.authTimestamp.Some? && m.signature.Some? && BehindGuard(p, m) == Accepted
    requires BeforeGuard(p, m, m.authTimestamp.value - p.maxFutureSkew) == Accepted
    ensures var t := m.authTimestamp.value;
      var run := [Instant(m, t - p.maxFutureSkew), Instant(m, t + p.maxAge)];
      Timely(run, 0.0) && VerdictAt(p, r, run, 0) == Accepted && VerdictAt(p, r, run, 1) == Accepted
      && RecordedBetween(p, r, run, 0, 1, m.id) == {}
  {
    hide BehindGuard, Scheme;
    var t := m.authTimestamp.value;
    var first, second := t - p.maxFutureSkew, t + p.maxAge;
    var run := [Instant(m, first), Instant(m, second)];
    var steps := GuardSteps(p, run);
    assert BeforeGuard(p, m, second) == Accepted;
    assert steps[..0] == [] && After(r, []) == [];
    assert DropOld(r, [], first) == [];
    assert steps[..1] == [Present(m.id, first, first)] && steps[..1][..0] == [];
    var log := Record(r, [], m.id, first);
    assert After(r, steps[..1]) == log;
    assert Without([], m.id) == [];
    assert log == [Seen(m.id, first)] || log == [];
    assert DropOld(r, log, second) == [] by {
      if log != [] {
        assert Old(r, log[0], second) && log[1..] == [];
      }
    }
  }
}

