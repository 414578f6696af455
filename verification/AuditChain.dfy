/** The hash-chained audit log. The hash functions, signing and signature checking are parameters. */
module AuditChain {
  /** The fields of an entry that its hash covers. */
  datatype Body = Body(
    sequence: nat, timestamp: real, sender: string, receiver: string, intent: string, messageId: string,
    messageHash: string, traceId: string, prevHash: string)

  datatype Entry = Entry(body: Body, entryHash: string, signature: string)

  /** What a recorded message shows its log: the hashed content and the trace id in its context. */
  datatype Content = Content(
    id: string, sender: string, receiver: string, intent: string, payload: string, timestamp: real)
  datatype Message = Message(content: Content, contextTrace: string)

  datatype Verdict = Intact | Broken(sequence: nat) | Tampered(sequence: nat) | BadSignature(sequence: nat)

  type Hash = Body -> string
  type Check = (string, string, string) -> bool

  const GENESIS: string := "genesis"

  /** The hash the next entry links to. */
  function Head(entries: seq<Entry>): string {
    if entries == [] then GENESIS else entries[|entries| - 1].entryHash
  }

  /** What one entry is found to be, behind the hash it should link to. */
  function Judge(h: Hash, check: Check, key: string, prev: string, e: Entry): Verdict {
    if e.body.prevHash != prev then Broken(e.body.sequence)
    else if e.entryHash != h(e.body) then Tampered(e.body.sequence)
    else if e.signature != "" && key != "" && !check(e.entryHash, e.signature, key) then BadSignature(e.body.sequence)
    else Intact
  }

  /** Every entry is found intact behind the one before it. */
  predicate Passes(h: Hash, check: Check, key: string, entries: seq<Entry>) {
    if entries == [] then true
    else
      var front := entries[..|entries| - 1];
      && Passes(h, check, key, front)
      && Judge(h, check, key, Head(front), entries[|entries| - 1]) == Intact
  }

  /** The hash tells the bodies of the two logs apart, and none of them from the genesis mark. Nothing is asked
      of it on any other body. */
  ghost predicate Apart(h: Hash, a: seq<Entry>, b: seq<Entry>) {
    && (forall i, j :: 0 <= i < |a| && 0 <= j < |b| && h(a[i].body) == h(b[j].body) ==> a[i].body == b[j].body)
    && (forall i :: 0 <= i < |a| ==> h(a[i].body) != GENESIS)
    && (forall j :: 0 <= j < |b| ==> h(b[j].body) != GENESIS)
  }

  /** The same logs up to signatures: length, and every hashed field and hash. */
  predicate SameUnsigned(a: seq<Entry>, b: seq<Entry>) {
    && |a| == |b|
    && forall k :: 0 <= k < |a| ==> a[k].body == b[k].body && a[k].entryHash == b[k].entryHash
  }

  lemma {:induction false} PrefixPasses(h: Hash, check: Check, key: string, entries: seq<Entry>, k: nat)
    requires k <= |entries| && Passes(h, check, key, entries)
    ensures Passes(h, check, key, entries[..k])
  {
    if k < |entries| {
      PrefixPasses(h, check, key, entries[..|entries| - 1], k);
      assert entries[..|entries| - 1][..k] == entries[..k];
    } else {
      assert entries[..k] == entries;
    }
  }

  lemma LastLinks(h: Hash, check: Check, key: string, entries: seq<Entry>)
    requires Passes(h, check, key, entries) && entries != []
    ensures var n := |entries| - 1;
      && Head(entries) == entries[n].entryHash == h(entries[n].body)
      && entries[n].body.prevHash == Head(entries[..n]) && Passes(h, check, key, entries[..n])
  {
  }

  lemma ApartAtEnds(h: Hash, a: seq<Entry>, b: seq<Entry>)
    requires Apart(h, a, b)
    ensures a != [] ==> h(a[|a| - 1].body) != GENESIS
    ensures b != [] ==> h(b[|b| - 1].body) != GENESIS
    ensures a != [] && b != [] && h(a[|a| - 1].body) == h(b[|b| - 1].body) ==> a[|a| - 1].body == b[|b| - 1].body
  {
  }

  lemma ApartPrefixes(h: Hash, a: seq<Entry>, b: seq<Entry>, m: nat, n: nat)
    requires Apart(h, a, b) && m <= |a| && n <= |b|
    ensures Apart(h, a[..m], b[..n])
  {
  }

  lemma SameMore(a: seq<Entry>, b: seq<Entry>)
    requires a != [] && b != [] && SameUnsigned(a[..|a| - 1], b[..|b| - 1])
    requires a[|a| - 1].body == b[|b| - 1].body && a[|a| - 1].entryHash == b[|b| - 1].entryHash
    ensures SameUnsigned(a, b)
  {
    var x, y := a[..|a| - 1], b[..|b| - 1];
    forall k | 0 <= k < |a|
      ensures a[k].body == b[k].body && a[k].entryHash == b[k].entryHash
    {
      assert k < |x| ==> a[k] == x[k] && b[k] == y[k];
    }
  }

  /** Passing logs with the same head are the same log, up to signatures, unless two of their bodies collide.
      The two may be checked against different keys. */
  lemma {:induction false} HeadPinsLog(h: Hash, check: Check, key: string, a: seq<Entry>,
                                       otherKey: string, b: seq<Entry>)
    requires Apart(h, a, b) && Passes(h, check, key, a) && Passes(h, check, otherKey, b)
    requires Head(a) == Head(b)
    ensures SameUnsigned(a, b)
  {
    hide Apart, Passes;
    if a != [] {
      LastLinks(h, check, key, a);
    }
    if b != [] {
      LastLinks(h, check, otherKey, b);
    }
    ApartAtEnds(h, a, b);
    if a != [] && b != [] {
      hide SameUnsigned, Head;
      ApartPrefixes(h, a, b, |a| - 1, |b| - 1);
      HeadPinsLog(h, check, key, a[..|a| - 1], otherKey, b[..|b| - 1]);
      SameMore(a, b);
    }
  }

  /** No hash occurs twice in a passing log whose bodies do not collide. */
  lemma HashesAreDistinct(h: Hash, check: Check, key: string, entries: seq<Entry>, i: nat, j: nat)
    requires Apart(h, entries, entries) && Passes(h, check, key, entries) && i < |entries| && j < |entries|
    requires entries[i].entryHash == entries[j].entryHash
    ensures i == j
  {
    hide Apart, Passes;
    PrefixPasses(h, check, key, entries, i + 1);
    PrefixPasses(h, check, key, entries, j + 1);
    ApartPrefixes(h, entries, entries, i + 1, j + 1);
    HeadPinsLog(h, check, key, entries[..i + 1], key, entries[..j + 1]);
  }

  /** A log that agrees with a passing log on the entry hash at some place, but differs in a hashed field at or
      before that place, does not pass. */
  lemma ChangeIsFound(h: Hash, check: Check, key: string, entries: seq<Entry>, changed: seq<Entry>, k: nat, n: nat)
    requires Apart(h, entries, changed) && Passes(h, check, key, entries)
    requires k <= n < |entries| && n < |changed|
    requires changed[n].entryHash == entries[n].entryHash && changed[k].body != entries[k].body
    ensures !Passes(h, check, key, changed)
  {
    hide Apart, Passes;
    if Passes(h, check, key, changed) {
      PrefixPasses(h, check, key, entries, n + 1);
      PrefixPasses(h, check, key, changed, n + 1);
      ApartPrefixes(h, entries, changed, n + 1, n + 1);
      HeadPinsLog(h, check, key, entries[..n + 1], key, changed[..n + 1]);
      SameAt(entries[..n + 1], changed[..n + 1], k);
      assert false;
    }
  }

  lemma SameAt(a: seq<Entry>, b: seq<Entry>, k: nat)
    requires SameUnsigned(a, b) && k < |a|
    ensures a[k].body == b[k].body
  {
  }

  /** Leaving entries out, or adding some, is found when the last hash stays. */
  lemma LengthIsPinned(h: Hash, check: Check, key: string, entries: seq<Entry>, changed: seq<Entry>)
    requires Apart(h, entries, changed) && Passes(h, check, key, entries)
    requires |entries| != |changed| && Head(entries) == Head(changed)
    ensures !Passes(h, check, key, changed)
  {
    if Passes(h, check, key, changed) {
      HeadPinsLog(h, check, key, entries, key, changed);
    }
  }

  // ---------------------------------------------------------------------------
  // Recording
  // ---------------------------------------------------------------------------

  datatype Scheme = Scheme(
    hash: Hash, hashMessage: Content -> string, sign: (string, string) -> string, check: Check)

  datatype Recorded = Recorded(m: Message, traceId: string, now: real)

  function MakeEntry(s: Scheme, privateKey: string, entries: seq<Entry>, r: Recorded): Entry {
    var c := r.m.content;
    var body := Body(|entries|, r.now, c.sender, c.receiver, c.intent, c.id, s.hashMessage(c),
                     if r.traceId != "" then r.traceId else r.m.contextTrace, Head(entries));
    Entry(body, s.hash(body), if privateKey == "" then "" else s.sign(s.hash(body), privateKey))
  }

  function LogOf(s: Scheme, privateKey: string, records: seq<Recorded>): (entries: seq<Entry>)
    ensures |entries| == |records|
  {
    if records == [] then []
    else
      var front := LogOf(s, privateKey, records[..|records| - 1]);
      front + [MakeEntry(s, privateKey, front, records[|records| - 1])]
  }

  lemma LogMore(s: Scheme, privateKey: string, records: seq<Recorded>, r: Recorded)
    ensures var front := LogOf(s, privateKey, records);
      LogOf(s, privateKey, records + [r]) == front + [MakeEntry(s, privateKey, front, r)]
  {
    assert (records + [r])[..|records|] == records;
  }

  /** Entry k links to the hash of the entry before it, or "genesis", carries the hash of its body, and a signature
      that is there is good under a key that is there. */
  predicate Sound(h: Hash, check: Check, key: string, entries: seq<Entry>, k: nat) {
    && k < |entries|
    && entries[k].body.prevHash == (if k == 0 then "genesis" else entries[k - 1].entryHash)
    && entries[k].entryHash == h(entries[k].body)
    && (entries[k].signature != "" && key != "" ==> check(entries[k].entryHash, entries[k].signature, key))
  }

  lemma {:induction false} PassesIs(h: Hash, check: Check, key: string, entries: seq<Entry>)
    ensures Passes(h, check, key, entries) <==> forall k :: 0 <= k < |entries| ==> Sound(h, check, key, entries, k)
  {
    if entries != [] {
      var n := |entries| - 1;
      var front := entries[..n];
      PassesIs(h, check, key, front);
      assert Judge(h, check, key, Head(front), entries[n]) == Intact <==> Sound(h, check, key, entries, n);
      forall k | 0 <= k < n
        ensures Sound(h, check, key, front, k) <==> Sound(h, check, key, entries, k)
      {
        assert front[k] == entries[k] && (k > 0 ==> front[k - 1] == entries[k - 1]);
      }
    }
  }

  /** What is said of an entry behind sound ones, by what is wrong with it first. */
  lemma FaultIs(h: Hash, check: Check, key: string, entries: seq<Entry>, k: nat, v: Verdict)
    requires FirstFault(h, check, key, entries, k, v)
    ensures forall j :: 0 <= j < k ==> Sound(h, check, key, entries, j)
    ensures var e, prev := entries[k], if k == 0 then "genesis" else entries[k - 1].entryHash;
      v == if e.body.prevHash != prev then Broken(e.body.sequence)
           else if e.entryHash != h(e.body) then Tampered(e.body.sequence)
           else BadSignature(e.body.sequence)
    ensures v.BadSignature? ==>
              entries[k].signature != "" && key != "" && !check(entries[k].entryHash, entries[k].signature, key)
  {
    PassesIs(h, check, key, entries[..k]);
    forall j | 0 <= j < k ensures Sound(h, check, key, entries, j) {
      assert Sound(h, check, key, entries[..k], j);
    }
  }

  /** The key checks what the private key signs, or one of them is not there. */
  ghost predicate KeysMatch(s: Scheme, privateKey: string, key: string) {
    privateKey == "" || key == "" || forall hash :: s.check(hash, s.sign(hash, privateKey), key)
  }

  lemma {:induction false} RecordedPasses(s: Scheme, privateKey: string, key: string, records: seq<Recorded>)
    requires KeysMatch(s, privateKey, key)
    ensures Passes(s.hash, s.check, key, LogOf(s, privateKey, records))
  {
    if records != [] {
      var n := |records| - 1;
      var front, entries := LogOf(s, privateKey, records[..n]), LogOf(s, privateKey, records);
      RecordedPasses(s, privateKey, key, records[..n]);
      assert entries[..n] == front;
      EntryIsIntact(s, privateKey, key, front, records[n]);
    }
  }

  lemma EntryIsIntact(s: Scheme, privateKey: string, key: string, entries: seq<Entry>, r: Recorded)
    requires KeysMatch(s, privateKey, key)
    ensures Judge(s.hash, s.check, key, Head(entries), MakeEntry(s, privateKey, entries, r)) == Intact
  {
  }

  lemma {:induction false} LogOfAt(s: Scheme, privateKey: string, records: seq<Recorded>, k: nat)
    requires k < |records|
    ensures var entries := LogOf(s, privateKey, records);
      entries[k] == MakeEntry(s, privateKey, entries[..k], records[k])
  {
    var n := |records| - 1;
    var front, entries := LogOf(s, privateKey, records[..n]), LogOf(s, privateKey, records);
    if k < n {
      LogOfAt(s, privateKey, records[..n], k);
      assert entries[..k] == front[..k];
    } else {
      assert entries[..k] == front;
    }
  }

  /** The message hash tells the recorded contents of two runs apart. */
  ghost predicate ContentsApart(hash: Content -> string, a: seq<Recorded>, b: seq<Recorded>) {
    forall i, j :: 0 <= i < |a| && 0 <= j < |b| && hash(a[i].m.content) == hash(b[j].m.content) ==>
      a[i].m.content == b[j].m.content
  }

  /** The head of a recorded log pins the messages recorded: as many, in the same order, each with the same
      content and time, and with the same trace id where the recorder gave one. */
  lemma HeadPinsMessages(s: Scheme, keyA: string, a: seq<Recorded>, keyB: string, b: seq<Recorded>)
    requires Apart(s.hash, LogOf(s, keyA, a), LogOf(s, keyB, b)) && ContentsApart(s.hashMessage, a, b)
    requires Head(LogOf(s, keyA, a)) == Head(LogOf(s, keyB, b))
    ensures |a| == |b|
    ensures forall k :: 0 <= k < |a| ==> a[k].m.content == b[k].m.content && a[k].now == b[k].now
    ensures forall k :: 0 <= k < |a| && a[k].traceId != "" && b[k].traceId != "" ==> a[k].traceId == b[k].traceId
  {
    RecordedPasses(s, keyA, "", a);
    RecordedPasses(s, keyB, "", b);
    hide Apart, Passes, LogOf;
    var x, y := LogOf(s, keyA, a), LogOf(s, keyB, b);
    HeadPinsLog(s.hash, s.check, "", x, "", y);
    forall k | 0 <= k < |a|
      ensures a[k].m.content == b[k].m.content && a[k].now == b[k].now
      ensures a[k].traceId != "" && b[k].traceId != "" ==> a[k].traceId == b[k].traceId
    {
      LogOfAt(s, keyA, a, k);
      LogOfAt(s, keyB, b, k);
      assert x[k].body == y[k].body;
    }
  }

  /** Without that a head pins nothing: under a constant hash two different logs of one entry pass and share
      their head. */
  lemma CollisionsLoseTheLog(check: Check, x: Body, y: Body, hash: string)
    requires x.prevHash == GENESIS == y.prevHash && x != y
    ensures var h: Hash := _ => hash;
      var a, b := [Entry(x, hash, "")], [Entry(y, hash, "")];
      Passes(h, check, "", a) && Passes(h, check, "", b) && Head(a) == Head(b) && !SameUnsigned(a, b)
  {
    var a, b := [Entry(x, hash, "")], [Entry(y, hash, "")];
    assert a[..0] == [] && b[..0] == [];
    assert a[0].body != b[0].body;
  }

  /** Entry k is the first that is not intact, with the verdict v. */
  predicate FirstFault(h: Hash, check: Check, key: string, entries: seq<Entry>, k: nat, v: Verdict) {
    && k < |entries| && Passes(h, check, key, entries[..k])
    && v == Judge(h, check, key, Head(entries[..k]), entries[k]) != Intact
  }

  lemma FirstFaultFails(h: Hash, check: Check, key: string, entries: seq<Entry>, k: nat)
    requires k < |entries| && Judge(h, check, key, Head(entries[..k]), entries[k]) != Intact
    ensures !Passes(h, check, key, entries)
  {
    assert entries[..k + 1][..k] == entries[..k];
    if Passes(h, check, key, entries) {
      PrefixPasses(h, check, key, entries, k + 1);
    }
  }

  // ---------------------------------------------------------------------------
  // The log
  // ---------------------------------------------------------------------------

  class AuditLog {
    const scheme: Scheme
    const privateKey: string
    const publicKey: string
    var entries: seq<Entry>
    ghost var records: seq<Recorded>

    ghost predicate Valid()
      reads this
    {
      entries == LogOf(scheme, privateKey, records)
    }

    constructor (scheme: Scheme, privateKey: string, publicKey: string)
      ensures Valid() && records == []
      ensures this.scheme == scheme && this.privateKey == privateKey && this.publicKey == publicKey
    {
      this.scheme, this.privateKey, this.publicKey := scheme, privateKey, publicKey;
      entries, records := [], [];
    }

    method Record(m: Message, traceId: string, now: real) returns (e: Entry)
      requires Valid()
      modifies this
      ensures Valid() && records == old(records) + [Recorded(m, traceId, now)]
      ensures entries == old(entries) + [e] && e.body.sequence == |old(entries)|
      ensures e.body.prevHash == if old(entries) == [] then "genesis" else old(entries)[|old(entries)| - 1].entryHash
      ensures e.entryHash == scheme.hash(e.body)
      ensures e.signature == if privateKey == "" then "" else scheme.sign(e.entryHash, privateKey)
      ensures e.body.timestamp == now && e.body.messageHash == scheme.hashMessage(m.content)
      ensures e.body.sender == m.content.sender && e.body.receiver == m.content.receiver
      ensures e.body.intent == m.content.intent && e.body.messageId == m.content.id
      ensures e.body.traceId == if traceId != "" then traceId else m.contextTrace
    {
      hide LogOf;
      LogMore(scheme, privateKey, records, Recorded(m, traceId, now));
      var prev := if |entries| > 0 then entries[|entries| - 1].entryHash else GENESIS;
      var c := m.content;
      var body := Body(|entries|, now, c.sender, c.receiver, c.intent, c.id, scheme.hashMessage(c),
                       if traceId != "" then traceId else m.contextTrace, prev);
      var hash := scheme.hash(body);
      var signature := "";
      if privateKey != "" {
        signature := scheme.sign(hash, privateKey);
      }
      e := Entry(body, hash, signature);
      entries := entries + [e];
      records := records + [Recorded(m, traceId, now)];
    }

    /** Intact exactly when the log passes; otherwise the verdict on the first entry that does not. */
    method VerifyChain(key: string) returns (v: Verdict)
      ensures var used := if key != "" then key else publicKey;
        && (v == Intact <==> Passes(scheme.hash, scheme.check, used, entries))
        && (v != Intact ==> exists k :: FirstFault(scheme.hash, scheme.check, used, entries, k, v))
        && (v == Intact <==> forall k :: 0 <= k < |entries| ==> Sound(scheme.hash, scheme.check, used, entries, k))
    {
      var used := if key != "" then key else publicKey;
      PassesIs(scheme.hash, scheme.check, used, entries);
      hide Sound;
      var prev := GENESIS;
      var k := 0;
      while k < |entries|
        invariant 0 <= k <= |entries| && prev == Head(entries[..k])
        invariant Passes(scheme.hash, scheme.check, used, entries[..k])
      {
        var e := entries[k];
        if e.body.prevHash != prev {
          v := Broken(e.body.sequence);
        } else if e.entryHash != scheme.hash(e.body) {
          v := Tampered(e.body.sequence);
        } else if e.signature != "" && used != "" && !scheme.check(e.entryHash, e.signature, used) {
          v := BadSignature(e.body.sequence);
        } else {
          v := Intact;
        }
        assert v == Judge(scheme.hash, scheme.check, used, Head(entries[..k]), e);
        assert v != Intact ==> FirstFault(scheme.hash, scheme.check, used, entries, k, v);
        if v != Intact {
          FirstFaultFails(scheme.hash, scheme.check, used, entries, k);
          return v;
        }
        prev := e.entryHash;
        assert entries[..k + 1][..k] == entries[..k];
        k := k + 1;
      }
      assert entries[..k] == entries;
      return Intact;
    }
  }
}
