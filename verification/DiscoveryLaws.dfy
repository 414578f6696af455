/** The discovery cache on values: a recency list with lifetimes, beside a log of what happened to each DID. */
module DiscoveryLaws {
  import opened Wrappers
  import opened Cardinality

  datatype Card = Card(did: string, capabilities: seq<string>, skills: seq<string>) {
    predicate Advertises(capability: string) {
      capability in capabilities || capability in skills
    }
  }

  datatype Cached = Cached(card: Card, at: real, ttl: real) {
    predicate Expired(now: real) { now - at > ttl }
  }

  datatype Note = Stored(e: Cached) | Hit(did: string) | Gone(did: string) | Wiped

  /** entries runs from the least to the most recently used. */
  datatype Cache = Cache(entries: seq<Cached>, log: seq<Note>)

  datatype Op =
    | Get(did: string, now: real)
    | Put(card: Card, ttl: real, now: real)
    | Invalidate(did: string)
    | Clear
    | Search(now: real)

  function Find(entries: seq<Cached>, did: string): (r: Option<Cached>)
    ensures r.Some? <==> did in Dids(entries)
    ensures r.Some? ==> r.value in entries && r.value.card.did == did
  {
    if entries == [] then None
    else if entries[0].card.did == did then Some(entries[0])
    else Find(entries[1..], did)
  }

  function Remove(entries: seq<Cached>, did: string): (r: seq<Cached>)
    ensures |r| <= |entries| && Dids(r) == Dids(entries) - {did}
  {
    if entries == [] then []
    else
      var rest := Remove(entries[1..], did);
      assert ([entries[0]] + rest)[1..] == rest;
      if entries[0].card.did == did then rest else [entries[0]] + rest
  }

  function Dids(entries: seq<Cached>): (s: set<string>)
    ensures |s| <= |entries| && forall i :: 0 <= i < |entries| ==> entries[i].card.did in s
  {
    if entries == [] then {}
    else
      assert forall i :: 1 <= i < |entries| ==> entries[i] == entries[1..][i - 1];
      {entries[0].card.did} + Dids(entries[1..])
  }

  /** An entry is used: it becomes the most recent. */
  function Touch(c: Cache, e: Cached, note: Note): Cache {
    Cache(Remove(c.entries, e.card.did) + [e], c.log + [note])
  }

  function Drop(c: Cache, did: string): Cache {
    Cache(Remove(c.entries, did), c.log + [Gone(did)])
  }

  function Trim(m: nat, c: Cache): Cache {
    if |c.entries| > m then c.(entries := c.entries[|c.entries| - m..]) else c
  }

  /** Trimming drops the front one by one. */
  lemma TrimOne(m: nat, c: Cache)
    requires |c.entries| > m
    ensures Trim(m, c.(entries := c.entries[1..])) == Trim(m, c)
  {
    assert c.entries[1..][|c.entries| - 1 - m..] == c.entries[|c.entries| - m..];
  }

  function Sweep(todo: seq<Cached>, now: real, c: Cache): Cache {
    if todo == [] then c
    else Sweep(todo[1..], now, if todo[0].Expired(now) then Drop(c, todo[0].card.did) else c)
  }

  function Answer(c: Cache, did: string, now: real): Option<Card> {
    var found := Find(c.entries, did);
    if found.Some? && !found.value.Expired(now) then Some(found.value.card) else None
  }

  function Next(m: nat, c: Cache, op: Op): Cache {
    match op
    case Get(did, now) =>
      var found := Find(c.entries, did);
      if found.None? then c
      else if found.value.Expired(now) then Drop(c, did)
      else Touch(c, found.value, Hit(did))
    case Put(card, ttl, now) =>
      var e := Cached(card, now, ttl);
      Trim(m, Touch(c, e, Stored(e)))
    case Invalidate(did) => Drop(c, did)
    case Clear => Cache([], c.log + [Wiped])
    case Search(now) => Sweep(c.entries, now, c)
  }

  function Run(m: nat, ops: seq<Op>): Cache {
    if ops == [] then Cache([], []) else Next(m, Run(m, ops[..|ops| - 1]), ops[|ops| - 1])
  }

  // ---------------------------------------------------------------------------
  // What a log says
  // ---------------------------------------------------------------------------

  /** The last entry stored under did and not taken out since. */
  function Latest(log: seq<Note>, did: string): (r: Option<Cached>)
    ensures r.Some? ==> r.value.card.did == did
  {
    if log == [] then None
    else
      var front, last := log[..|log| - 1], log[|log| - 1];
      if last.Stored? && last.e.card.did == did then Some(last.e)
      else if last == Gone(did) || last.Wiped? then None
      else Latest(front, did)
  }

  /** The other DIDs stored or hit since did was last stored or hit. */
  function Since(log: seq<Note>, did: string): (s: set<string>)
    ensures did !in s
  {
    if log == [] then {}
    else
      var front, last := log[..|log| - 1], log[|log| - 1];
      match last
      case Stored(e) => if e.card.did == did then {} else Since(front, did) + {e.card.did}
      case Hit(d) => if d == did then {} else Since(front, did) + {d}
      case Gone(_) => Since(front, did)
      case Wiped => Since(front, did)
  }

  /** The DIDs behind e0 are those live and used since it. */
  ghost predicate Behind(e0: Cached, dids: set<string>, log: seq<Note>) {
    && Latest(log, e0.card.did) == Some(e0)
    && forall x :: x in dids <==> Latest(log, x).Some? && x in Since(log, e0.card.did)
  }

  /** The entries are the latest stored ones, in order of recency of use. */
  ghost predicate Recency(entries: seq<Cached>, log: seq<Note>) {
    entries != [] ==>
      Behind(entries[0], Dids(entries[1..]), log) && Recency(entries[1..], log)
  }

  /** Whatever is live and not cached has seen at least m other DIDs used since. */
  ghost predicate Crowded(m: nat, entries: seq<Cached>, log: seq<Note>) {
    forall d :: Latest(log, d).Some? && d !in Dids(entries) ==> |Since(log, d)| >= m
  }

  /** Only live DIDs are hit. */
  predicate HitsLive(log: seq<Note>) {
    log != [] ==>
      && HitsLive(log[..|log| - 1])
      && (log[|log| - 1].Hit? ==> Latest(log[..|log| - 1], log[|log| - 1].did).Some?)
  }

  ghost predicate Good(m: nat, c: Cache) {
    |c.entries| <= m && Recency(c.entries, c.log) && Crowded(m, c.entries, c.log) && HitsLive(c.log)
  }

  // ---------------------------------------------------------------------------
  // Each step keeps it
  // ---------------------------------------------------------------------------

  lemma LogGrows(log: seq<Note>, note: Note)
    ensures (log + [note])[..|log + [note]| - 1] == log
    ensures HitsLive(log + [note]) <==> HitsLive(log) && (note.Hit? ==> Latest(log, note.did).Some?)
  {
    assert (log + [note])[..|log + [note]| - 1] == log;
  }

  predicate Uses(log: seq<Note>, note: Note, e: Cached) {
    note == Stored(e) || (note == Hit(e.card.did) && Latest(log, e.card.did) == Some(e))
  }

  lemma TouchNote(log: seq<Note>, note: Note, e: Cached, x: string)
    requires Uses(log, note, e)
    ensures Latest(log + [note], x) == if x == e.card.did then Some(e) else Latest(log, x)
    ensures Since(log + [note], x) == if x == e.card.did then {} else Since(log, x) + {e.card.did}
  {
    LogGrows(log, note);
  }

  lemma DropNote(log: seq<Note>, did: string, x: string)
    ensures Latest(log + [Gone(did)], x) == if x == did then None else Latest(log, x)
    ensures Since(log + [Gone(did)], x) == Since(log, x)
  {
    LogGrows(log, Gone(did));
  }

  lemma DidsMore(entries: seq<Cached>, e: Cached)
    ensures Dids(entries + [e]) == Dids(entries) + {e.card.did}
  {
    if entries != [] {
      assert (entries + [e])[1..] == entries[1..] + [e];
      DidsMore(entries[1..], e);
    }
  }

  lemma {:induction false} TouchRecency(entries: seq<Cached>, log: seq<Note>, e: Cached, note: Note)
    requires Recency(entries, log) && Uses(log, note, e)
    ensures Recency(Remove(entries, e.card.did) + [e], log + [note])
  {
    var d := e.card.did;
    TouchNote(log, note, e, d);
    if entries == [] {
      assert [e][1..] == [];
      assert Dids([]) == {};
    } else {
      TouchRecency(entries[1..], log, e, note);
      if entries[0].card.did == d {
        assert Remove(entries, d) == Remove(entries[1..], d);
      } else {
        TouchHead(entries, log, e, note);
      }
    }
  }

  lemma {:induction false} RecencyCons(e0: Cached, rest: seq<Cached>, log: seq<Note>)
    ensures Recency([e0] + rest, log) <==> Behind(e0, Dids(rest), log) && Recency(rest, log)
  {
    hide Dids, Latest, Since;
    assert ([e0] + rest)[1..] == rest;
  }

  lemma RemoveCons(e0: Cached, tail: seq<Cached>, did: string)
    ensures Remove([e0] + tail, did) == (if e0.card.did == did then [] else [e0]) + Remove(tail, did)
  {
    assert ([e0] + tail)[1..] == tail;
  }

  lemma {:induction false} TouchHead(entries: seq<Cached>, log: seq<Note>, e: Cached, note: Note)
    requires entries != [] && entries[0].card.did != e.card.did
    requires Recency(entries, log) && Uses(log, note, e)
    requires Recency(Remove(entries[1..], e.card.did) + [e], log + [note])
    ensures Recency(Remove(entries, e.card.did) + [e], log + [note])
  {
    hide Dids, Latest, Since, Recency, Remove, Uses;
    var d, e0, tail := e.card.did, entries[0], entries[1..];
    var kept := Remove(tail, d);
    var rest := kept + [e];
    RemoveCons(e0, tail, d);
    assert [e0] + tail == entries;
    assert ([e0] + kept) + [e] == [e0] + rest;
    RecencyCons(e0, tail, log);
    RecencyCons(e0, rest, log + [note]);
    DidsMore(kept, e);
    TouchNote(log, note, e, e0.card.did);
    forall x
      ensures x in Dids(rest) <==> Latest(log + [note], x).Some? && x in Since(log + [note], e0.card.did)
    {
      TouchNote(log, note, e, x);
    }
  }

  lemma {:induction false} DropRecency(entries: seq<Cached>, log: seq<Note>, did: string)
    requires Recency(entries, log)
    ensures Recency(Remove(entries, did), log + [Gone(did)])
  {
    if entries != [] {
      DropRecency(entries[1..], log, did);
      if entries[0].card.did != did {
        DropHead(entries, log, did);
      }
    }
  }

  lemma {:induction false} DropHead(entries: seq<Cached>, log: seq<Note>, did: string)
    requires entries != [] && entries[0].card.did != did
    requires Recency(entries, log) && Recency(Remove(entries[1..], did), log + [Gone(did)])
    ensures Recency(Remove(entries, did), log + [Gone(did)])
  {
    hide Dids, Latest, Since, Recency, Remove;
    var e0, tail, rest := entries[0], entries[1..], Remove(entries[1..], did);
    RemoveCons(e0, tail, did);
    assert [e0] + tail == entries;
    RecencyCons(e0, tail, log);
    RecencyCons(e0, rest, log + [Gone(did)]);
    DropNote(log, did, e0.card.did);
    forall x
      ensures x in Dids(rest) <==> Latest(log + [Gone(did)], x).Some? && x in Since(log + [Gone(did)], e0.card.did)
    {
      DropNote(log, did, x);
    }
  }

  lemma DropGood(m: nat, c: Cache, did: string)
    requires Good(m, c)
    ensures Good(m, Drop(c, did))
  {
    DropRecency(c.entries, c.log, did);
    LogGrows(c.log, Gone(did));
    forall d | Latest(c.log + [Gone(did)], d).Some? && d !in Dids(Remove(c.entries, did))
      ensures |Since(c.log + [Gone(did)], d)| >= m
    {
      DropNote(c.log, did, d);
    }
  }

  lemma TouchCrowded(m: nat, c: Cache, e: Cached, note: Note)
    requires Crowded(m, c.entries, c.log) && Uses(c.log, note, e)
    ensures Crowded(m, Touch(c, e, note).entries, Touch(c, e, note).log)
  {
    DidsMore(Remove(c.entries, e.card.did), e);
    forall d | Latest(c.log + [note], d).Some? && d !in Dids(Remove(c.entries, e.card.did) + [e])
      ensures |Since(c.log + [note], d)| >= m
    {
      TouchNote(c.log, note, e, d);
      SubsetSize(Since(c.log, d), Since(c.log + [note], d));
    }
  }

  /** A recency list names no DID twice. */
  lemma {:induction false} RecencyIsDistinct(entries: seq<Cached>, log: seq<Note>)
    requires Recency(entries, log)
    ensures |Dids(entries)| == |entries|
  {
    if entries != [] {
      RecencyIsDistinct(entries[1..], log);
      assert entries[0].card.did !in Dids(entries[1..]);
    }
  }

  /** Taking the least recently used entry off an over-full list. */
  lemma EvictOldest(m: nat, entries: seq<Cached>, log: seq<Note>)
    requires |entries| == m + 1 && Recency(entries, log) && Crowded(m, entries, log)
    ensures Recency(entries[1..], log) && Crowded(m, entries[1..], log)
  {
    RecencyIsDistinct(entries[1..], log);
    SubsetSize(Dids(entries[1..]), Since(log, entries[0].card.did));
  }

  lemma {:induction false} RemoveShorter(entries: seq<Cached>, did: string)
    requires did in Dids(entries)
    ensures |Remove(entries, did)| < |entries|
  {
    if entries[0].card.did != did {
      RemoveShorter(entries[1..], did);
    }
  }

  lemma GetGood(m: nat, c: Cache, did: string, now: real)
    requires Good(m, c)
    ensures Good(m, Next(m, c, Get(did, now)))
  {
    hide Recency, Crowded, Latest, Since, HitsLive;
    var found := Find(c.entries, did);
    if found.Some? {
      if found.value.Expired(now) {
        DropGood(m, c, did);
      } else {
        CachedIsLatest(c.entries, c.log, found.value);
        RemoveShorter(c.entries, did);
        LogGrows(c.log, Hit(did));
        TouchRecency(c.entries, c.log, found.value, Hit(did));
        TouchCrowded(m, c, found.value, Hit(did));
      }
    }
  }

  lemma PutGood(m: nat, c: Cache, e: Cached)
    requires Good(m, c)
    ensures Good(m, Trim(m, Touch(c, e, Stored(e))))
  {
    hide Recency, Crowded, Latest, Since, HitsLive;
    LogGrows(c.log, Stored(e));
    TouchRecency(c.entries, c.log, e, Stored(e));
    TouchCrowded(m, c, e, Stored(e));
    var t := Touch(c, e, Stored(e));
    if |t.entries| > m {
      EvictOldest(m, t.entries, t.log);
    }
  }

  lemma NextGood(m: nat, c: Cache, op: Op)
    requires Good(m, c)
    ensures Good(m, Next(m, c, op))
  {
    hide Good;
    match op {
      case Get(did, now) => GetGood(m, c, did, now);
      case Put(card, ttl, now) => PutGood(m, c, Cached(card, now, ttl));
      case Invalidate(did) => DropGood(m, c, did);
      case Clear => WipeGood(m, c);
      case Search(now) => SweepGood(m, c.entries, now, c);
    }
  }

  lemma WipeGood(m: nat, c: Cache)
    requires Good(m, c)
    ensures Good(m, Next(m, c, Clear))
  {
    LogGrows(c.log, Wiped);
    assert forall d :: Latest(c.log + [Wiped], d).None?;
  }

  lemma {:induction false} SweepGood(m: nat, todo: seq<Cached>, now: real, c: Cache)
    requires Good(m, c)
    ensures Good(m, Sweep(todo, now, c))
  {
    if todo != [] {
      DropGood(m, c, todo[0].card.did);
      SweepGood(m, todo[1..], now, if todo[0].Expired(now) then Drop(c, todo[0].card.did) else c);
    }
  }

  lemma {:induction false} CachedIsLatest(entries: seq<Cached>, log: seq<Note>, e: Cached)
    requires Recency(entries, log) && e in entries
    ensures Latest(log, e.card.did) == Some(e)
  {
    if e != entries[0] {
      CachedIsLatest(entries[1..], log, e);
    }
  }

  // ---------------------------------------------------------------------------
  // Every run
  // ---------------------------------------------------------------------------

  lemma {:induction false} RunGood(m: nat, ops: seq<Op>)
    ensures Good(m, Run(m, ops))
  {
    if ops != [] {
      RunGood(m, ops[..|ops| - 1]);
      NextGood(m, Run(m, ops[..|ops| - 1]), ops[|ops| - 1]);
    }
  }

  /** Of two cached entries, the later one was used since the earlier one, and not the other way round. */
  lemma {:induction false} OrderIsRecency(entries: seq<Cached>, log: seq<Note>, i: nat, j: nat)
    requires Recency(entries, log) && i < j < |entries|
    ensures entries[j].card.did in Since(log, entries[i].card.did)
    ensures entries[i].card.did !in Since(log, entries[j].card.did)
  {
    if i == 0 {
      assert entries[j] == entries[1..][j - 1];
      CachedIsLatest(entries, log, entries[j]);
      SinceOneWay(log, entries[0].card.did, entries[j].card.did);
    } else {
      OrderIsRecency(entries[1..], log, i - 1, j - 1);
    }
  }

  lemma {:induction false} SinceOneWay(log: seq<Note>, a: string, b: string)
    ensures b in Since(log, a) ==> a !in Since(log, b)
  {
    if log != [] {
      SinceOneWay(log[..|log| - 1], a, b);
    }
  }

  /** With nothing ever taken out, the cache holds exactly the DIDs with fewer than m others used since. */
  lemma CachedIffRecent(m: nat, ops: seq<Op>, did: string)
    requires forall n :: n in Run(m, ops).log ==> n.Stored? || n.Hit?
    ensures var c := Run(m, ops);
      did in Dids(c.entries) <==> Latest(c.log, did).Some? && |Since(c.log, did)| < m
  {
    var c := Run(m, ops);
    RunGood(m, ops);
    if did in Dids(c.entries) {
      CachedIsLatest(c.entries, c.log, Find(c.entries, did).value);
      FewSince(c.entries, c.log, did);
    }
  }

  lemma {:induction false} FewSince(entries: seq<Cached>, log: seq<Note>, did: string)
    requires Recency(entries, log) && did in Dids(entries) && HitsLive(log)
    requires forall n :: n in log ==> n.Stored? || n.Hit?
    ensures |Since(log, did)| < |entries|
  {
    if entries[0].card.did == did {
      forall x | x in Since(log, did)
        ensures x in Dids(entries[1..])
      {
        UsedIsLive(log, did, x);
      }
      SubsetSize(Since(log, did), Dids(entries[1..]));
    } else {
      FewSince(entries[1..], log, did);
    }
  }

  lemma {:induction false} UsedIsLive(log: seq<Note>, did: string, x: string)
    requires x in Since(log, did) && HitsLive(log) && forall n :: n in log ==> n.Stored? || n.Hit?
    ensures Latest(log, x).Some?
  {
    var last := log[|log| - 1];
    assert last in log;
    if x in Since(log[..|log| - 1], did) {
      UsedIsLive(log[..|log| - 1], did, x);
    }
  }

  // ---------------------------------------------------------------------------
  // What callers asked for
  // ---------------------------------------------------------------------------

  /** What was put last under did with no invalidate or clear since. */
  function Wanted(ops: seq<Op>, did: string): Option<Cached> {
    if ops == [] then None
    else
      var front, last := ops[..|ops| - 1], ops[|ops| - 1];
      match last
      case Put(card, ttl, now) => if card.did == did then Some(Cached(card, now, ttl)) else Wanted(front, did)
      case Invalidate(d) => if d == did then None else Wanted(front, did)
      case Clear => None
      case Get(_, _) => Wanted(front, did)
      case Search(_) => Wanted(front, did)
  }

  /** The clock readings never go back and end at now or before. */
  predicate Clocked(ops: seq<Op>, now: real) {
    if ops == [] then true
    else
      var front, last := ops[..|ops| - 1], ops[|ops| - 1];
      if last.Get? || last.Put? || last.Search? then last.now <= now && Clocked(front, last.now)
      else Clocked(front, now)
  }

  predicate SameOrExpired(live: Option<Cached>, wanted: Option<Cached>, now: real) {
    live == wanted || (live == None && wanted.Some? && wanted.value.Expired(now))
  }

  lemma {:induction false} SweepLatest(todo: seq<Cached>, now: real, c: Cache, x: string)
    ensures var l := Latest(Sweep(todo, now, c).log, x);
      l == Latest(c.log, x) || (l == None && exists e :: e in todo && e.card.did == x && e.Expired(now))
  {
    if todo != [] {
      var e := todo[0];
      var d := if e.Expired(now) then Drop(c, e.card.did) else c;
      SweepLatest(todo[1..], now, d, x);
      DropNote(c.log, e.card.did, x);
      assert e in todo && forall f :: f in todo[1..] ==> f in todo;
    }
  }

  lemma NextLatest(m: nat, c: Cache, op: Op, x: string)
    requires Good(m, c)
    ensures var l, after := Latest(c.log, x), Latest(Next(m, c, op).log, x);
      if op.Get? || op.Search? then SameOrExpired(after, l, op.now)
      else if op.Put? then after == if op.card.did == x then Some(Cached(op.card, op.now, op.ttl)) else l
      else if op.Invalidate? then after == if op.did == x then None else l
      else after == None
  {
    hide Recency, Crowded, Latest, Since, HitsLive;
    match op {
      case Get(did, now) =>
        var found := Find(c.entries, did);
        if found.Some? {
          CachedIsLatest(c.entries, c.log, found.value);
          DropNote(c.log, did, x);
          TouchNote(c.log, Hit(did), found.value, x);
        }
      case Put(card, ttl, now) =>
        var e := Cached(card, now, ttl);
        TouchNote(c.log, Stored(e), e, x);
      case Invalidate(did) => DropNote(c.log, did, x);
      case Clear => WipedNote(c.log, x);
      case Search(now) =>
        SweepLatest(c.entries, now, c, x);
        if Latest(Next(m, c, op).log, x) != Latest(c.log, x) {
          var e :| e in c.entries && e.card.did == x && e.Expired(now);
          CachedIsLatest(c.entries, c.log, e);
        }
    }
  }

  lemma WipedNote(log: seq<Note>, x: string)
    ensures Latest(log + [Wiped], x) == None
  {
  }

  /** What is live is what callers asked to keep, except for what a read or a search found expired. */
  lemma {:induction false} LiveIsWanted(m: nat, ops: seq<Op>, now: real, did: string)
    requires Clocked(ops, now)
    ensures SameOrExpired(Latest(Run(m, ops).log, did), Wanted(ops, did), now)
  {
    hide Latest, Next;
    if ops != [] {
      var front, last := ops[..|ops| - 1], ops[|ops| - 1];
      var then_ := if last.Get? || last.Put? || last.Search? then last.now else now;
      LiveIsWanted(m, front, then_, did);
      RunGood(m, front);
      NextLatest(m, Run(m, front), last, did);
    } else {
      NoLatest(did);
    }
  }

  lemma NoLatest(did: string)
    ensures Latest([], did) == None
  {
  }

  /** A lookup returns nothing but the last thing put, while it is wanted and fresh; and it does return it
      unless m other DIDs were used since. */
  lemma GetAnswers(m: nat, ops: seq<Op>, did: string, now: real)
    requires Clocked(ops, now)
    ensures var c, w := Run(m, ops), Wanted(ops, did);
      && (Answer(c, did, now).Some? ==> w.Some? && Answer(c, did, now).value == w.value.card && !w.value.Expired(now))
      && (|Since(c.log, did)| < m ==> (Answer(c, did, now).Some? <==> w.Some? && !w.value.Expired(now)))
  {
    hide Latest, Recency, Since, Wanted, HitsLive;
    var c := Run(m, ops);
    RunGood(m, ops);
    LiveIsWanted(m, ops, now, did);
    var found := Find(c.entries, did);
    if found.Some? {
      CachedIsLatest(c.entries, c.log, found.value);
    }
  }

  /** A search leaves exactly the unexpired entries, in their order. */
  function Unexpired(entries: seq<Cached>, now: real): seq<Cached> {
    if entries == [] then []
    else (if entries[0].Expired(now) then [] else [entries[0]]) + Unexpired(entries[1..], now)
  }

  /** By its age alone: what is exactly as old as its lifetime still counts. */
  lemma {:induction false} UnexpiredIs(entries: seq<Cached>, now: real)
    ensures forall e :: e in Unexpired(entries, now) <==> e in entries && now - e.at <= e.ttl
  {
    if entries != [] {
      UnexpiredIs(entries[1..], now);
      assert entries == [entries[0]] + entries[1..];
    }
  }

  lemma SweepIs(m: nat, c: Cache, now: real)
    requires Good(m, c)
    ensures Next(m, c, Search(now)) == Sweep(c.entries, now, c)
    ensures Sweep(c.entries, now, c).entries == Unexpired(c.entries, now)
  {
    hide Unexpired, Sweep, Dids, Crowded, HitsLive;
    RecencyIsDistinct(c.entries, c.log);
    assert [] + c.entries == c.entries && [] + Unexpired(c.entries, now) == Unexpired(c.entries, now);
    SweepKeeps(c.entries, now, c, []);
  }

  lemma {:induction false} RemoveIs(entries: seq<Cached>, did: string)
    ensures forall e :: e in Remove(entries, did) <==> e in entries && e.card.did != did
  {
    hide Dids;
    if entries != [] {
      RemoveIs(entries[1..], did);
      RemoveCons(entries[0], entries[1..], did);
      assert entries == [entries[0]] + entries[1..];
    }
  }

  /** No two entries of a DID. */
  lemma FoundIsOne(m: nat, c: Cache, did: string)
    requires Good(m, c)
    ensures forall e :: e in c.entries && e.card.did == did ==> Find(c.entries, did) == Some(e)
  {
    hide Dids, Latest, Since, Crowded, HitsLive;
    forall e | e in c.entries && e.card.did == did
      ensures Find(c.entries, did) == Some(e)
    {
      CachedIsLatest(c.entries, c.log, e);
      CachedIsLatest(c.entries, c.log, Find(c.entries, did).value);
    }
  }

  lemma AnswerIs(m: nat, c: Cache, did: string, now: real)
    requires Good(m, c)
    ensures forall card :: Answer(c, did, now) == Some(card) <==>
              exists e :: e in c.entries && e.card == card && card.did == did && now - e.at <= e.ttl
  {
    FoundIsOne(m, c, did);
    hide Good, Dids;
  }

  lemma {:induction false} SweepKeeps(todo: seq<Cached>, now: real, c: Cache, head: seq<Cached>)
    requires c.entries == head + todo && |Dids(c.entries)| == |c.entries|
    ensures Sweep(todo, now, c).entries == head + Unexpired(todo, now)
  {
    hide Dids, Remove;
    if todo != [] {
      var e := todo[0];
      if e.Expired(now) {
        RemoveAt(c.entries, |head|);
        var d := Drop(c, e.card.did);
        assert c.entries[|head|] == e;
        assert d.entries == c.entries[..|head|] + c.entries[|head| + 1..] == head + todo[1..];
        SweepKeeps(todo[1..], now, d, head);
      } else {
        assert c.entries == (head + [e]) + todo[1..];
        SweepKeeps(todo[1..], now, c, head + [e]);
      }
    }
  }

  lemma {:induction false} RemoveAt(entries: seq<Cached>, k: nat)
    requires k < |entries| && |Dids(entries)| == |entries|
    ensures Remove(entries, entries[k].card.did) == entries[..k] + entries[k + 1..]
    ensures |Dids(entries[..k] + entries[k + 1..])| == |entries| - 1
  {
    hide Dids;
    var did, rest := entries[k].card.did, entries[1..];
    HeadIsNew(entries);
    if k == 0 {
      RemoveNone(rest, did);
      assert entries[..0] + entries[1..] == rest;
    } else {
      RemoveAt(rest, k - 1);
      var tail := rest[..k - 1] + rest[k..];
      assert rest[k - 1] == entries[k];
      assert entries[..k] + entries[k + 1..] == [entries[0]] + tail;
      assert Dids(tail) <= Dids(rest);
      HeadCounts(entries[0], tail);
    }
  }

  lemma HeadCounts(e: Cached, tail: seq<Cached>)
    requires e.card.did !in Dids(tail)
    ensures |Dids([e] + tail)| == 1 + |Dids(tail)|
  {
    assert ([e] + tail)[1..] == tail;
  }

  lemma HeadIsNew(entries: seq<Cached>)
    requires entries != [] && |Dids(entries)| == |entries|
    ensures entries[0].card.did !in Dids(entries[1..]) && |Dids(entries[1..])| == |entries| - 1
  {
  }

  lemma {:induction false} RemoveNone(entries: seq<Cached>, did: string)
    requires did !in Dids(entries)
    ensures Remove(entries, did) == entries
  {
    if entries != [] {
      RemoveNone(entries[1..], did);
      assert [entries[0]] + entries[1..] == entries;
    }
  }

  /** After a search nothing expired is left, and nothing else is gone. */
  lemma SearchSweeps(m: nat, ops: seq<Op>, now: real)
    ensures var c := Run(m, ops); Next(m, c, Search(now)).entries == Unexpired(c.entries, now)
  {
    var c := Run(m, ops);
    RunGood(m, ops);
    SweepIs(m, c, now);
  }
}
