/** The replay guards' log of seen keys, on values: one theory for the Python and the TypeScript guard. */
module SeenLog {
  import opened Cardinality

  datatype Seen = Seen(key: string, at: real)

  /** cap bounds the log; python tells the two guards apart where they differ: the Python guard also
      drops entries exactly ttl old and looks at the age again before calling a key a duplicate. */
  datatype Rules = Rules(cap: nat, ttl: real, python: bool)

  /** One operation with its clock readings. Other stands for everything that leaves the guard alone. */
  datatype Step =
    | Present(key: string, evictAt: real, at: real)
    | Mark(key: string, at: real)
    | Clear
    | Other

  predicate Old(r: Rules, e: Seen, now: real) {
    if r.python then e.at <= now - r.ttl else e.at < now - r.ttl
  }

  /** The sweep from the front that stops at the first entry that is not old. */
  function DropOld(r: Rules, s: seq<Seen>, now: real): seq<Seen> {
    if s == [] || !Old(r, s[0], now) then s else DropOld(r, s[1..], now)
  }

  predicate Has(s: seq<Seen>, key: string) {
    exists i :: 0 <= i < |s| && s[i].key == key
  }

  /** When key was seen. */
  function SeenAt(s: seq<Seen>, key: string): real
    requires Has(s, key)
  {
    if s[0].key == key then s[0].at else SeenAt(s[1..], key)
  }

  function Without(s: seq<Seen>, key: string): seq<Seen> {
    if s == [] then []
    else if s[0].key == key then Without(s[1..], key)
    else [s[0]] + Without(s[1..], key)
  }

  /** The key goes to the back; beyond the cap the front goes. */
  function Record(r: Rules, s: seq<Seen>, key: string, at: real): seq<Seen> {
    var t := Without(s, key) + [Seen(key, at)];
    if |t| > r.cap then t[1..] else t
  }

  /** Whether a presented key counts as a duplicate, after the sweep. */
  predicate Duplicate(r: Rules, s: seq<Seen>, key: string, evictAt: real, at: real) {
    var t := DropOld(r, s, evictAt);
    Has(t, key) && (r.python ==> at - SeenAt(t, key) < r.ttl)
  }

  function Next(r: Rules, s: seq<Seen>, step: Step): seq<Seen> {
    match step
    case Present(key, evictAt, at) =>
      if Duplicate(r, s, key, evictAt, at) then DropOld(r, s, evictAt)
      else Record(r, DropOld(r, s, evictAt), key, at)
    case Mark(key, at) => Record(r, s, key, at)
    case Clear => []
    case Other => s
  }

  /** The log after a run. */
  function After(r: Rules, steps: seq<Step>): seq<Seen> {
    if steps == [] then [] else Next(r, After(r, steps[..|steps| - 1]), steps[|steps| - 1])
  }

  /** The clock never goes back, within a step or between steps. */
  predicate Clocked(steps: seq<Step>, last: real) {
    if steps == [] then true
    else
      var front, step := steps[..|steps| - 1], steps[|steps| - 1];
      match step
      case Present(_, evictAt, at) => evictAt <= at <= last && Clocked(front, evictAt)
      case Mark(_, at) => at <= last && Clocked(front, at)
      case _ => Clocked(front, last)
  }

  // ---------------------------------------------------------------------------
  // Invariants of every run
  // ---------------------------------------------------------------------------

  predicate Ordered(s: seq<Seen>) {
    forall i, j :: 0 <= i < j < |s| ==> s[i].at <= s[j].at
  }

  predicate Distinct(s: seq<Seen>) {
    forall i, j :: 0 <= i < j < |s| ==> s[i].key != s[j].key
  }

  predicate UpTo(s: seq<Seen>, last: real) {
    forall i :: 0 <= i < |s| ==> s[i].at <= last
  }

  predicate Proper(r: Rules, s: seq<Seen>, last: real) {
    Ordered(s) && Distinct(s) && UpTo(s, last) && |s| <= r.cap
  }

  /** The sweep removes a prefix. */
  lemma {:induction false} DropOldIsSuffix(r: Rules, s: seq<Seen>, now: real) returns (n: nat)
    ensures n <= |s| && DropOld(r, s, now) == s[n..]
    ensures forall i :: 0 <= i < n ==> Old(r, s[i], now)
    ensures n < |s| ==> !Old(r, s[n], now)
  {
    if s == [] || !Old(r, s[0], now) {
      n := 0;
    } else {
      n := DropOldIsSuffix(r, s[1..], now);
      n := n + 1;
      assert s[1..][n - 1..] == s[n..];
      forall i | 0 <= i < n ensures Old(r, s[i], now) {
        assert i > 0 ==> s[i] == s[1..][i - 1];
      }
    }
  }

  /** In an ordered log the early stop misses nothing: exactly the old entries go. */
  lemma SweepIsExact(r: Rules, s: seq<Seen>, now: real)
    requires Ordered(s)
    ensures forall e :: e in DropOld(r, s, now) <==> e in s && !Old(r, e, now)
  {
    var n := DropOldIsSuffix(r, s, now);
    forall e ensures e in DropOld(r, s, now) <==> e in s && !Old(r, e, now) {
      if e in s[n..] {
        var i :| 0 <= i < |s[n..]| && s[n..][i] == e;
        assert s[n + i] == e && s[n].at <= s[n + i].at;
      }
      if e in s && !Old(r, e, now) {
        var i :| 0 <= i < |s| && s[i] == e;
        assert i >= n && s[n..][i - n] == e;
      }
    }
  }

  /** The two ages, from the clock alone: the Python guard forgets a key that is exactly ttl old, the other does not. */
  lemma OldIs(r: Rules, e: Seen, now: real)
    ensures r.python ==> (Old(r, e, now) <==> now - e.at >= r.ttl)
    ensures !r.python ==> (Old(r, e, now) <==> now - e.at > r.ttl)
  {
  }

  /** A presented key is a duplicate exactly when the log holds it young enough. */
  lemma DuplicateIs(r: Rules, s: seq<Seen>, key: string, evictAt: real, at: real)
    requires Ordered(s) && Distinct(s)
    ensures Duplicate(r, s, key, evictAt, at) <==>
            exists e :: e in s && e.key == key
              && if r.python then evictAt - e.at < r.ttl && at - e.at < r.ttl else evictAt - e.at <= r.ttl
  {
    hide DropOld, Distinct, Ordered;
    var t := DropOld(r, s, evictAt);
    SweepIsExact(r, s, evictAt);
    var n := DropOldIsSuffix(r, s, evictAt);
    DistinctTail(s, n);
    if Has(t, key) {
      var i :| 0 <= i < |t| && t[i].key == key;
      SeenAtIndex(t, i);
      assert t[i] in t;
      forall e | e in s && e.key == key && !Old(r, e, evictAt) ensures e == t[i] {
        assert e in t;
        OneOfAKey(t, e, t[i]);
      }
    } else {
      forall e | e in s && e.key == key ensures Old(r, e, evictAt) {
        assert e in t ==> Has(t, key);
      }
    }
  }

  lemma DistinctTail(s: seq<Seen>, n: nat)
    requires Distinct(s) && n <= |s|
    ensures Distinct(s[n..])
  {
  }

  lemma OneOfAKey(s: seq<Seen>, e: Seen, f: Seen)
    requires Distinct(s) && e in s && f in s && e.key == f.key
    ensures e == f
  {
    var i :| 0 <= i < |s| && s[i] == e;
    var j :| 0 <= j < |s| && s[j] == f;
  }

  /** Recording a key: it stands last, at its time; the others keep their places, but for the first one when there
      are more than cap. */
  lemma RecordIs(r: Rules, s: seq<Seen>, key: string, at: real)
    requires r.cap >= 1
    ensures var t, w := Record(r, s, key, at), Without(s, key);
      && t != [] && t[|t| - 1] == Seen(key, at)
      && (forall e :: e in w <==> e in s && e.key != key)
      && t[..|t| - 1] == if |w| < r.cap then w else w[1..]
  {
    hide Without;
    WithoutContents(s, key);
  }

  lemma DropOldProper(r: Rules, s: seq<Seen>, now: real, last: real)
    requires Proper(r, s, last)
    ensures Proper(r, DropOld(r, s, now), last)
  {
    var n := DropOldIsSuffix(r, s, now);
  }

  lemma {:induction false} WithoutContents(s: seq<Seen>, key: string)
    ensures forall e :: e in Without(s, key) <==> e in s && e.key != key
    ensures !Has(Without(s, key), key)
    ensures |Without(s, key)| <= |s|
    ensures Has(s, key) ==> |Without(s, key)| < |s|
    ensures !Has(s, key) ==> Without(s, key) == s
  {
    if s != [] {
      WithoutContents(s[1..], key);
      assert s == [s[0]] + s[1..];
      if Has(s, key) && s[0].key != key {
        var i :| 0 <= i < |s| && s[i].key == key;
        assert s[1..][i - 1].key == key;
      }
      var w := Without(s, key);
      forall i | 0 <= i < |w| ensures w[i].key != key {
        assert w[i] in w;
      }
    }
  }

  lemma {:induction false} WithoutProper(s: seq<Seen>, key: string)
    requires Ordered(s) && Distinct(s)
    ensures Ordered(Without(s, key)) && Distinct(Without(s, key))
  {
    hide Ordered, Distinct, Without;
    WithoutNothing(key);
    if s != [] {
      var rest := Without(s[1..], key);
      TailProper(s);
      WithoutProper(s[1..], key);
      WithoutContents(s[1..], key);
      WithoutHead(s, key);
      forall j | 0 <= j < |rest| ensures s[0].at <= rest[j].at && s[0].key != rest[j].key {
        assert rest[j] in s[1..];
        var i :| 0 <= i < |s[1..]| && s[1..][i] == rest[j];
        HeadIsFirst(s, i + 1);
      }
      ConsProper(s[0], rest);
    }
  }

  lemma WithoutNothing(key: string)
    ensures Without([], key) == []
  {
  }

  lemma TailProper(s: seq<Seen>)
    requires s != [] && Ordered(s) && Distinct(s)
    ensures Ordered(s[1..]) && Distinct(s[1..])
  {
  }

  lemma HeadIsFirst(s: seq<Seen>, i: nat)
    requires 0 < i < |s| && Ordered(s) && Distinct(s)
    ensures s[0].at <= s[i].at && s[0].key != s[i].key
  {
  }

  lemma ConsProper(e: Seen, rest: seq<Seen>)
    requires Ordered(rest) && Distinct(rest)
    requires forall j :: 0 <= j < |rest| ==> e.at <= rest[j].at && e.key != rest[j].key
    ensures Ordered([e] + rest) && Distinct([e] + rest)
  {
  }

  lemma WithoutHead(s: seq<Seen>, key: string)
    requires s != []
    ensures Without(s, key) == if s[0].key == key then Without(s[1..], key) else [s[0]] + Without(s[1..], key)
  {
  }

  lemma RecordProper(r: Rules, s: seq<Seen>, key: string, at: real, last: real)
    requires Proper(r, s, last) && last <= at
    ensures Proper(r, Record(r, s, key, at), at)
  {
    hide Without;
    WithoutProper(s, key);
    WithoutContents(s, key);
    var w := Without(s, key);
    var t := w + [Seen(key, at)];
    forall i | 0 <= i < |w| ensures w[i].at <= at && w[i].key != key {
      assert w[i] in w && w[i] in s;
    }
  }

  lemma NextProper(r: Rules, s: seq<Seen>, step: Step, last: real, next: real)
    requires Proper(r, s, last)
    requires match step
      case Present(_, evictAt, at) => last <= at <= next
      case Mark(_, at) => last <= at <= next
      case _ => last <= next
    ensures Proper(r, Next(r, s, step), next)
  {
    hide Ordered, Distinct, DropOld, Record, Duplicate;
    match step {
      case Present(key, evictAt, at) =>
        DropOldProper(r, s, evictAt, last);
        RecordProper(r, DropOld(r, s, evictAt), key, at, last);
      case Mark(key, at) => RecordProper(r, s, key, at, last);
      case Clear => EmptyProper(r, next);
      case Other =>
    }
  }

  /** Every run keeps the log ordered by time, without repetitions and within the cap. */
  lemma {:induction false} RunProper(r: Rules, steps: seq<Step>, last: real)
    requires Clocked(steps, last)
    ensures Proper(r, After(r, steps), last)
  {
    hide Proper, Next;
    if steps == [] {
      EmptyProper(r, last);
    } else {
      var front, step := steps[..|steps| - 1], steps[|steps| - 1];
      var before := match step case Present(_, evictAt, _) => evictAt case Mark(_, at) => at case _ => last;
      RunProper(r, front, before);
      NextProper(r, After(r, front), step, before, last);
    }
  }

  lemma EmptyProper(r: Rules, last: real)
    ensures Proper(r, [], last)
  {
  }

  // ---------------------------------------------------------------------------
  // What is remembered
  // ---------------------------------------------------------------------------

  /** key stands in the log since time at, with only keys of others behind it. */
  ghost predicate Held(s: seq<Seen>, key: string, at: real, others: set<string>) {
    exists p :: HeldAt(s, key, at, others, p)
  }

  ghost predicate HeldAt(s: seq<Seen>, key: string, at: real, others: set<string>, p: nat) {
    p < |s| && s[p] == Seen(key, at) && forall q :: p < q < |s| ==> s[q].key in others
  }

  /** Distinct keys from a set are no more than the set has. */
  lemma {:induction false} FewKeys(s: seq<Seen>, keys: set<string>)
    requires Distinct(s) && forall i :: 0 <= i < |s| ==> s[i].key in keys
    ensures |s| <= |keys|
  {
    if s != [] {
      var front, k := s[..|s| - 1], s[|s| - 1].key;
      forall i | 0 <= i < |front| ensures front[i].key in keys - {k} {
        assert front[i] == s[i];
      }
      FewKeys(front, keys - {k});
      assert |keys - {k}| == |keys| - 1;
    }
  }

  lemma HeldBehind(r: Rules, s: seq<Seen>, key: string, at: real, others: set<string>, now: real)
    requires Ordered(s) && Held(s, key, at, others) && !Old(r, Seen(key, at), now)
    ensures Held(DropOld(r, s, now), key, at, others)
  {
    var p: nat :| HeldAt(s, key, at, others, p);
    var n := DropOldIsSuffix(r, s, now);
    assert !Old(r, s[p], now) && n <= p;
    assert HeldAt(s[n..], key, at, others, p - n);
  }

  lemma HeldIsSeen(s: seq<Seen>, key: string, at: real, others: set<string>)
    requires Distinct(s) && Held(s, key, at, others)
    ensures Has(s, key) && SeenAt(s, key) == at
  {
    var p: nat :| HeldAt(s, key, at, others, p);
    SeenAtIndex(s, p);
  }

  lemma {:induction false} SeenAtIndex(s: seq<Seen>, p: nat)
    requires Distinct(s) && p < |s|
    ensures Has(s, s[p].key) && SeenAt(s, s[p].key) == s[p].at
  {
    if p > 0 {
      SeenAtIndex(s[1..], p - 1);
    }
  }

  lemma WithoutHeldFirst(s: seq<Seen>, key: string, at: real, others: set<string>, k: string)
    requires HeldAt(s, key, at, others, 0) && k != key
    ensures HeldAt(Without(s, k), key, at, others, 0)
  {
    var t, w := s[1..], Without(s[1..], k);
    WithoutContents(t, k);
    assert Without(s, k) == [s[0]] + w;
    hide Without;
    forall q | 0 <= q < |w| ensures w[q].key in others {
      assert w[q] in w && w[q] in t;
      var j :| 0 <= j < |t| && t[j] == w[q];
      assert s[j + 1].key in others;
    }
  }

  lemma {:induction false} WithoutHeld(s: seq<Seen>, key: string, at: real, others: set<string>, k: string)
    requires Held(s, key, at, others) && k != key
    ensures Held(Without(s, k), key, at, others)
  {
    var p: nat :| HeldAt(s, key, at, others, p);
    var t, w := s[1..], Without(s[1..], k);
    if p == 0 {
      WithoutHeldFirst(s, key, at, others, k);
    } else {
      assert HeldAt(t, key, at, others, p - 1);
      WithoutHeld(t, key, at, others, k);
      var p': nat :| HeldAt(w, key, at, others, p');
      if s[0].key == k {
        assert Without(s, k) == w;
      } else {
        assert Without(s, k) == [s[0]] + w;
        assert HeldAt(Without(s, k), key, at, others, p' + 1);
      }
    }
  }

  /** Recording another key does not push key out while fewer than cap others stand behind it. */
  lemma HeldRecord(r: Rules, s: seq<Seen>, key: string, at: real, others: set<string>, k: string, t: real)
    requires Ordered(s) && Distinct(s) && Held(s, key, at, others) && k != key
    requires |others + {k}| < r.cap
    ensures Held(Record(r, s, k, t), key, at, others + {k})
  {
    hide Without, Ordered, Distinct, HeldAt;
    WithoutHeld(s, key, at, others, k);
    WithoutProper(s, k);
    WithoutContents(s, k);
    var w := Without(s, k);
    var p: nat :| HeldAt(w, key, at, others, p);
    var u := w + [Seen(k, t)];
    HeldAtMore(w, key, at, others, p, Seen(k, t));
    DistinctMore(w, Seen(k, t));
    if |u| > r.cap {
      NotInFront(u, key, at, others + {k}, p);
      HeldAtTail(u, key, at, others + {k}, p);
    }
  }

  lemma HeldAtMore(s: seq<Seen>, key: string, at: real, others: set<string>, p: nat, e: Seen)
    requires HeldAt(s, key, at, others, p)
    ensures HeldAt(s + [e], key, at, others + {e.key}, p)
  {
  }

  lemma HeldAtTail(s: seq<Seen>, key: string, at: real, others: set<string>, p: nat)
    requires HeldAt(s, key, at, others, p) && p > 0
    ensures HeldAt(s[1..], key, at, others, p - 1)
  {
  }

  lemma DistinctMore(s: seq<Seen>, e: Seen)
    requires Distinct(s) && !Has(s, e.key)
    ensures Distinct(s + [e])
  {
  }

  /** With more entries than others behind it can fill, the key does not stand in front. */
  lemma NotInFront(s: seq<Seen>, key: string, at: real, others: set<string>, p: nat)
    requires Distinct(s) && HeldAt(s, key, at, others, p)
    ensures |s| > |others| + 1 ==> p > 0
  {
    var behind := s[p + 1..];
    FewKeys(behind, others);
  }

  lemma JustRecorded(r: Rules, s: seq<Seen>, key: string, at: real)
    requires r.cap >= 1
    ensures Held(Record(r, s, key, at), key, at, {})
  {
    var t := Record(r, s, key, at);
    assert HeldAt(t, key, at, {}, |t| - 1);
  }

  // ---------------------------------------------------------------------------
  // Whole runs
  // ---------------------------------------------------------------------------

  /** Whether a step writes its key into the log. */
  predicate Records(r: Rules, s: seq<Seen>, step: Step) {
    match step
    case Present(key, evictAt, at) => !Duplicate(r, s, key, evictAt, at)
    case Mark(_, _) => true
    case _ => false
  }

  /** The keys other than key that steps i + 1 .. j - 1 have recorded. */
  function OthersBetween(r: Rules, steps: seq<Step>, i: nat, j: nat, key: string): set<string>
    requires j <= |steps|
  {
    if j <= i + 1 then {}
    else
      var step := steps[j - 1];
      OthersBetween(r, steps, i, j - 1, key)
      + if Records(r, After(r, steps[..j - 1]), step) && step.key != key then {step.key} else {}
  }

  /** Step i recorded key at time at, and no step before j cleared the log or marked key again. */
  predicate Since(r: Rules, steps: seq<Step>, i: nat, j: nat, key: string, at: real)
    requires i < j <= |steps|
  {
    && Records(r, After(r, steps[..i]), steps[i]) && steps[i].key == key && steps[i].at == at
    && forall m :: i < m < j ==> steps[m] != Clear && !(steps[m].Mark? && steps[m].key == key)
  }

  lemma OldLater(r: Rules, e: Seen, now: real, later: real)
    requires now <= later && !Old(r, e, later)
    ensures !Old(r, e, now)
  {
  }

  lemma HeldNext(r: Rules, s: seq<Seen>, step: Step, key: string, at: real, others: set<string>, last: real, now: real)
    requires Proper(r, s, last) && Held(s, key, at, others) && !Old(r, Seen(key, at), now)
    requires step != Clear && !(step.Mark? && step.key == key)
    requires step.Present? ==> step.evictAt <= now && step.at <= now
    requires Records(r, s, step) && step.key != key ==> |others + {step.key}| < r.cap
    ensures Held(Next(r, s, step), key, at,
                 others + if Records(r, s, step) && step.key != key then {step.key} else {})
  {
    hide Held, DropOld, Record, Proper, SeenAt, Has;
    ProperParts(r, s, last);
    match step {
      case Present(k, evictAt, t) =>
        OldLater(r, Seen(key, at), evictAt, now);
        HeldBehind(r, s, key, at, others, evictAt);
        DropOldProper(r, s, evictAt, last);
        ProperParts(r, DropOld(r, s, evictAt), last);
        HeldIsSeen(DropOld(r, s, evictAt), key, at, others);
        assert others + {} == others;
        if Records(r, s, step) && k != key {
          HeldRecord(r, DropOld(r, s, evictAt), key, at, others, k, t);
        }
      case Mark(k, t) => HeldRecord(r, s, key, at, others, k, t);
      case Other => assert others + {} == others;
    }
  }

  lemma ProperParts(r: Rules, s: seq<Seen>, last: real)
    requires Proper(r, s, last)
    ensures Ordered(s) && Distinct(s)
  {
  }

  lemma {:induction false} OthersGrow(r: Rules, steps: seq<Step>, i: nat, j: nat, key: string)
    requires i < j < |steps|
    ensures OthersBetween(r, steps, i, j, key) <= OthersBetween(r, steps, i, j + 1, key)
    ensures |OthersBetween(r, steps, i, j, key)| <= |OthersBetween(r, steps, i, j + 1, key)|
  {
    SubsetSize(OthersBetween(r, steps, i, j, key), OthersBetween(r, steps, i, j + 1, key));
  }

  /** While the key is young and fewer than cap others have been recorded since, it is held. */
  lemma {:induction false} RunHolds(r: Rules, steps: seq<Step>, i: nat, j: nat, key: string, at: real, now: real)
    requires i < j <= |steps| && Clocked(steps[..j], now) && Since(r, steps, i, j, key, at)
    requires !Old(r, Seen(key, at), now) && |OthersBetween(r, steps, i, j, key)| < r.cap
    ensures Held(After(r, steps[..j]), key, at, OthersBetween(r, steps, i, j, key))
    decreases j
  {
    hide Held, Old, Records, Next, Proper, Without, DropOld, Has;
    var front, step := steps[..j - 1], steps[j - 1];
    assert steps[..j][..j - 1] == front && steps[..j][j - 1] == step;
    if j == i + 1 {
      RecordsHolds(r, After(r, front), step);
    } else {
      var before := match step case Present(_, evictAt, _) => evictAt case Mark(_, t) => t case _ => now;
      OthersGrow(r, steps, i, j - 1, key);
      OldLater(r, Seen(key, at), before, now);
      RunHolds(r, steps, i, j - 1, key, at, before);
      RunProper(r, front, before);
      HeldNext(r, After(r, front), step, key, at, OthersBetween(r, steps, i, j - 1, key), before, now);
    }
  }

  lemma RecordsHolds(r: Rules, s: seq<Seen>, step: Step)
    requires r.cap >= 1 && Records(r, s, step)
    ensures Held(Next(r, s, step), step.key, step.at, {})
  {
    match step {
      case Present(key, evictAt, at) => JustRecorded(r, DropOld(r, s, evictAt), key, at);
      case Mark(key, at) => JustRecorded(r, s, key, at);
    }
  }

  /** A key is forgotten only by age, by clearing, or behind at least cap other keys. */
  lemma ForgottenOnlyWhen(r: Rules, steps: seq<Step>, i: nat, j: nat, key: string, at: real, now: real)
    requires i < j <= |steps| && Clocked(steps[..j], now) && Since(r, steps, i, j, key, at)
    ensures Has(After(r, steps[..j]), key) || Old(r, Seen(key, at), now)
            || |OthersBetween(r, steps, i, j, key)| >= r.cap
  {
    hide Held, Has, Old;
    if !Old(r, Seen(key, at), now) && |OthersBetween(r, steps, i, j, key)| < r.cap {
      RunHolds(r, steps, i, j, key, at, now);
      RunProper(r, steps[..j], now);
      ProperParts(r, After(r, steps[..j]), now);
      HeldIsSeen(After(r, steps[..j]), key, at, OthersBetween(r, steps, i, j, key));
    }
  }

  /** Presented again while young: a duplicate, unless cap other keys have come in between. */
  lemma PresentedAgain(r: Rules, steps: seq<Step>, i: nat, j: nat, key: string, at: real)
    requires i < j < |steps| && Since(r, steps, i, j, key, at)
    requires steps[j].Present? && steps[j].key == key && Clocked(steps[..j + 1], steps[j].at)
    requires !Old(r, Seen(key, at), steps[j].at)
    ensures Duplicate(r, After(r, steps[..j]), key, steps[j].evictAt, steps[j].at)
            || |OthersBetween(r, steps, i, j, key)| >= r.cap
  {
    var e := steps[j].evictAt;
    assert steps[..j + 1][..j] == steps[..j];
    OldLater(r, Seen(key, at), e, steps[j].at);
    if |OthersBetween(r, steps, i, j, key)| < r.cap {
      hide Held, DropOld;
      var s, others := After(r, steps[..j]), OthersBetween(r, steps, i, j, key);
      RunHolds(r, steps, i, j, key, at, e);
      RunProper(r, steps[..j], e);
      ProperParts(r, s, e);
      HeldBehind(r, s, key, at, others, e);
      DropOldProper(r, s, e, e);
      HeldIsSeen(DropOld(r, s, e), key, at, others);
    }
  }

  // ---------------------------------------------------------------------------
  // Eviction goes by recording, not by presentation
  // ---------------------------------------------------------------------------

  function Keys(s: seq<Seen>): (ks: seq<string>)
    ensures |ks| == |s| && forall i :: 0 <= i < |s| ==> ks[i] == s[i].key
  {
    seq(|s|, i requires 0 <= i < |s| => s[i].key)
  }

  /** Presenting a duplicate does not make it the most recent key: the order after it is that of least recent use
      exactly when the key stood last before it. */
  lemma DuplicateKeepsItsPlaceIff(r: Rules, s: seq<Seen>, key: string, evictAt: real, at: real)
    requires Distinct(s) && Duplicate(r, s, key, evictAt, at)
    ensures var t := Next(r, s, Present(key, evictAt, at));
      var unexpired := DropOld(r, s, evictAt);
      Keys(t) == Keys(Without(unexpired, key)) + [key] <==> s != [] && s[|s| - 1].key == key
  {
    var n := DropOldIsSuffix(r, s, evictAt);
    var t := DropOld(r, s, evictAt);
    assert t == s[n..] && t != [] && t[|t| - 1] == s[|s| - 1];
    hide Next, DropOld, Duplicate;
    KeysWithoutLast(t, key);
  }

  lemma KeysWithoutLast(t: seq<Seen>, key: string)
    requires Distinct(t) && Has(t, key)
    ensures Keys(t) == Keys(Without(t, key)) + [key] <==> t[|t| - 1].key == key
  {
    if t[|t| - 1].key == key {
      WithoutLast(t, key);
      assert Keys(t) == Keys(t[..|t| - 1]) + [key];
    } else {
      assert Keys(t)[|t| - 1] != key;
    }
  }

  lemma {:induction false} WithoutLast(t: seq<Seen>, key: string)
    requires Distinct(t) && t != [] && t[|t| - 1].key == key
    ensures Without(t, key) == t[..|t| - 1]
  {
    if |t| > 1 {
      WithoutLast(t[1..], key);
      assert t[..|t| - 1] == [t[0]] + t[1..][..|t[1..]| - 1];
    } else {
      assert t[1..] == [] && t[..0] == [];
    }
  }

  /** With room for two, a key just presented again is forgotten for a third, and the older one is kept. */
  lemma {:induction false} PresentedAgainIsForgotten(ttl: real, python: bool, a: string, b: string, c: string)
    requires ttl > 0.0 && a != b && b != c && a != c
    ensures var r := Rules(2, ttl, python);
      var steps := [Present(a, 0.0, 0.0), Present(b, 0.0, 0.0), Present(a, 0.0, 0.0), Present(c, 0.0, 0.0)];
      After(r, steps) == [Seen(b, 0.0), Seen(c, 0.0)]
  {
    hide Next, After;
    var r := Rules(2, ttl, python);
    var x, y, z := Present(a, 0.0, 0.0), Present(b, 0.0, 0.0), Present(c, 0.0, 0.0);
    AfterMore(r, [], x);
    AfterMore(r, [x], y);
    AfterMore(r, [x, y], x);
    AfterMore(r, [x, y, x], z);
    assert [] + [x] == [x] && [x] + [y] == [x, y] && [x, y] + [x] == [x, y, x] && [x, y, x] + [z] == [x, y, x, z];
    FirstOfTwo(r, a, b, c);
    NothingSeen(r);
  }

  lemma NothingSeen(r: Rules)
    ensures After(r, []) == []
  {
  }

  lemma AfterMore(r: Rules, steps: seq<Step>, step: Step)
    ensures After(r, steps + [step]) == Next(r, After(r, steps), step)
  {
    assert (steps + [step])[..|steps|] == steps;
  }

  lemma {:induction false} FirstOfTwo(r: Rules, a: string, b: string, c: string)
    requires r.cap == 2 && r.ttl > 0.0 && a != b && b != c && a != c
    ensures var p, q, s := Seen(a, 0.0), Seen(b, 0.0), Seen(c, 0.0);
      && Next(r, [], Present(a, 0.0, 0.0)) == [p]
      && Next(r, [p], Present(b, 0.0, 0.0)) == [p, q]
      && Next(r, [p, q], Present(a, 0.0, 0.0)) == [p, q]
      && Next(r, [p, q], Present(c, 0.0, 0.0)) == [q, s]
  {
    var p, q, s := Seen(a, 0.0), Seen(b, 0.0), Seen(c, 0.0);
    assert [p][0] == p && [p, q][0] == p && [p, q][1] == q;
    assert [p][1..] == [] && [p, q][1..] == [q] && [q][1..] == [];
    assert Without([q], a) == [q] && Without([p], b) == [p] && Without([q], c) == [q];
    assert Without([p, q], c) == [p] + Without([q], c) == [p, q];
    assert [p, q, s][1..] == [q, s];
  }
}
