/** The token-bucket rate limiter: the bucket, and what it grants over a whole run of calls. */
module TokenBuckets {
  datatype Bucket = Bucket(tokens: real, last: real)

  datatype Limit = Limit(capacity: real, rate: real) {
    /** How many calls a window from time s to time t may grant. */
    function Room(s: real, t: real): real { capacity + rate * (t - s) }

    function Gain(elapsed: real): real { elapsed * rate }
  }

  function Min(a: real, b: real): real {
    if a < b then a else b
  }

  function Level(l: Limit, b: Bucket, now: real): real {
    Min(l.capacity, b.tokens + l.Gain(now - b.last))
  }

  function Consume(l: Limit, b: Bucket, now: real): Bucket {
    var level := Level(l, b, now);
    Bucket(if level < 1.0 then level else level - 1.0, now)
  }

  /** The bucket created at start, after calls at the given times. */
  function After(l: Limit, start: real, times: seq<real>): Bucket {
    if times == [] then Bucket(l.capacity, start)
    else Consume(l, After(l, start, times[..|times| - 1]), times[|times| - 1])
  }

  /** Which of the calls are granted. */
  function Granted(l: Limit, start: real, times: seq<real>): (g: seq<bool>)
    ensures |g| == |times|
  {
    if times == [] then []
    else
      var front := times[..|times| - 1];
      Granted(l, start, front) + [Level(l, After(l, start, front), times[|times| - 1]) >= 1.0]
  }

  function Count(bs: seq<bool>): (n: nat)
    ensures n <= |bs|
  {
    if bs == [] then 0 else Count(bs[..|bs| - 1]) + if bs[|bs| - 1] then 1 else 0
  }

  /** Granting call k, on top of the decisions bs on earlier calls, keeps every window that ends with it
      within its room: the windows from each call on, and the one from the start. */
  ghost predicate Fits(l: Limit, start: real, times: seq<real>, bs: seq<bool>, k: nat) {
    && k < |times| && k <= |bs|
    && Count(bs[..k]) as real + 1.0 <= l.Room(start, times[k])
    && forall j :: 0 <= j <= k ==> Count(bs[j..k]) as real + 1.0 <= l.Room(times[j], times[k])
  }

  lemma CountMore(bs: seq<bool>, b: bool)
    ensures Count(bs + [b]) == Count(bs) + if b then 1 else 0
  {
    assert (bs + [b])[..|bs|] == bs;
  }

  lemma {:induction false} CountIs(bs: seq<bool>)
    ensures Count(bs) == |set i | 0 <= i < |bs| && bs[i]|
  {
    if bs != [] {
      var n := |bs| - 1;
      var front := bs[..n];
      CountIs(front);
      var few := set i | 0 <= i < |front| && front[i];
      assert (set i | 0 <= i < |bs| && bs[i]) == few + if bs[n] then {n} else {};
    }
  }

  /** When one more call fits, in numbers: behind the calls granted since any moment, the first call or the start,
      there is one left of the capacity and what has flowed in since. */
  lemma FitsIs(l: Limit, start: real, times: seq<real>, bs: seq<bool>, k: nat)
    requires k < |times| && k <= |bs|
    ensures Fits(l, start, times, bs, k) <==>
            && Count(bs[..k]) as real <= l.capacity - 1.0 + l.rate * (times[k] - start)
            && forall j :: 0 <= j <= k ==>
                 Count(bs[j..k]) as real <= l.capacity - 1.0 + l.rate * (times[k] - times[j])
  {
    RoomIs(l, start, times[k]);
    hide Limit.Room, Count;
    forall j | 0 <= j <= k
      ensures Count(bs[j..k]) as real + 1.0 <= l.Room(times[j], times[k]) <==>
              Count(bs[j..k]) as real <= l.capacity - 1.0 + l.rate * (times[k] - times[j])
    {
      RoomIs(l, times[j], times[k]);
    }
  }

  lemma NothingCounted()
    ensures Count([]) == 0
  {
  }

  lemma {:induction false} CountSplit(bs: seq<bool>, j: nat)
    requires j <= |bs|
    ensures Count(bs) == Count(bs[..j]) + Count(bs[j..])
  {
    hide Count;
    if j == |bs| {
      assert bs[..j] == bs;
      NothingCounted();
    } else {
      var front := bs[..|bs| - 1];
      CountSplit(front, j);
      assert bs[..j] == front[..j];
      assert bs[j..] == front[j..] + [bs[|bs| - 1]] && bs == front + [bs[|bs| - 1]];
      CountMore(front[j..], bs[|bs| - 1]);
      CountMore(front, bs[|bs| - 1]);
    }
  }

  lemma RoomGrows(l: Limit, s: real, t: real, u: real)
    ensures l.Room(s, u) == l.Room(s, t) + l.Gain(u - t)
  {
    Distributes(l.rate, t - s, u - t);
  }

  lemma Distributes(rate: real, a: real, b: real)
    ensures rate * (a + b) == rate * a + b * rate
  {
  }

  lemma {:induction false} GrantedFront(l: Limit, start: real, times: seq<real>, k: nat)
    requires k <= |times|
    ensures Granted(l, start, times)[..k] == Granted(l, start, times[..k])
  {
    if k < |times| {
      var front := times[..|times| - 1];
      GrantedFront(l, start, front, k);
      assert front[..k] == times[..k];
    } else {
      assert times[..k] == times;
    }
  }

  /** The room left, at time now, in the window from call j on; -1 is the window from the start and
      |times| the one that begins now. */
  function Slack(l: Limit, start: real, times: seq<real>, now: real, j: int): real {
    var g := Granted(l, start, times);
    if j < 0 then l.Room(start, now) - Count(g) as real
    else if j < |times| then l.Room(times[j], now) - Count(g[j..]) as real
    else l.capacity
  }

  lemma {:induction false} SlackStep(l: Limit, start: real, front: seq<real>, t: real, now: real, j: int)
    requires j <= |front|
    ensures var level := Level(l, After(l, start, front), t);
      Slack(l, start, front + [t], now, j) ==
      Slack(l, start, front, t, j) - (if level >= 1.0 then 1.0 else 0.0) + l.Gain(now - t)
  {
    hide Limit.Room, Limit.Gain, Count;
    var times := front + [t];
    var level := Level(l, After(l, start, front), t);
    var f, g := Granted(l, start, front), Granted(l, start, times);
    assert times[..|times| - 1] == front && g == f + [level >= 1.0];
    SameInstant(l, t);
    if j < 0 {
      CountMore(f, level >= 1.0);
      RoomGrows(l, start, t, now);
    } else {
      RoomGrows(l, times[j], t, now);
      assert g[j..] == f[j..] + [level >= 1.0];
      CountMore(f[j..], level >= 1.0);
      if j == |front| {
        NoneCounted();
      }
    }
  }

  lemma NoneCounted()
    ensures Count([]) == 0
  {
  }

  lemma SameInstant(l: Limit, t: real)
    ensures l.Room(t, t) == l.capacity
  {
  }

  lemma {:induction false} LevelStep(l: Limit, start: real, front: seq<real>, t: real, now: real)
    ensures var was := Level(l, After(l, start, front), t);
      Level(l, After(l, start, front + [t]), now) ==
      Min(l.capacity, was - (if was >= 1.0 then 1.0 else 0.0) + l.Gain(now - t))
  {
    hide Limit.Gain;
    assert (front + [t])[..|front|] == front;
  }

  lemma FirstLevel(l: Limit, start: real, now: real)
    ensures Level(l, After(l, start, []), now) == Min(l.capacity, Slack(l, start, [], now, -1))
  {
    NoneCounted();
  }

  lemma CapacitySlack(l: Limit, start: real, times: seq<real>, now: real)
    ensures Slack(l, start, times, now, |times|) == l.capacity
  {
  }

  /** The level at a call is the least room left by any window ending there. */
  lemma {:induction false} LevelIsLeastSlack(l: Limit, start: real, times: seq<real>, now: real)
    ensures var level := Level(l, After(l, start, times), now);
      && (forall j :: -1 <= j <= |times| ==> level <= Slack(l, start, times, now, j))
      && exists j :: -1 <= j <= |times| && level == Slack(l, start, times, now, j)
  {
    hide Slack, Level, After;
    var level := Level(l, After(l, start, times), now);
    CapacitySlack(l, start, times, now);
    if times == [] {
      FirstLevel(l, start, now);
    } else {
      var front, t := times[..|times| - 1], times[|times| - 1];
      assert times == front + [t];
      LevelIsLeastSlack(l, start, front, t);
      LevelStep(l, start, front, t, now);
      forall j | -1 <= j <= |front|
        ensures level <= Slack(l, start, times, now, j)
      {
        SlackStep(l, start, front, t, now, j);
      }
      var least: int :| -1 <= least <= |front|
        && Level(l, After(l, start, front), t) == Slack(l, start, front, t, least);
      SlackStep(l, start, front, t, now, least);
      assert level == l.capacity || level == Slack(l, start, times, now, least);
    }
  }

  /** A call is granted exactly when granting it keeps every window ending with it within its room. */
  lemma GrantedExactly(l: Limit, start: real, times: seq<real>, k: nat)
    requires k < |times|
    ensures var g := Granted(l, start, times); g[k] <==> Fits(l, start, times, g, k)
  {
    hide Limit.Room, Count, Level, After;
    var g, front := Granted(l, start, times), times[..k];
    assert times[..k + 1][..k] == front;
    GrantedFront(l, start, times, k + 1);
    GrantedFront(l, start, times, k);
    assert g[k] == g[..k + 1][k];
    LevelIsLeastSlack(l, start, front, times[k]);
    SameInstant(l, times[k]);
    NoneCounted();
    forall j | 0 <= j <= k
      ensures Slack(l, start, front, times[k], j) == l.Room(times[j], times[k]) - Count(g[j..k]) as real
    {
      assert g[j..k] == g[..k][j..];
      assert j == k ==> g[j..k] == [];
    }
    assert Slack(l, start, front, times[k], -1) == l.Room(start, times[k]) - Count(g[..k]) as real;
  }

  // ---------------------------------------------------------------------------
  // What this gives callers
  // ---------------------------------------------------------------------------

  predicate Clocked(start: real, times: seq<real>) {
    && (forall j :: 0 <= j < |times| ==> start <= times[j])
    && forall i, j :: 0 <= i <= j < |times| ==> times[i] <= times[j]
  }

  /** No window of calls grants more than its room. */
  lemma {:induction false} WindowBound(l: Limit, start: real, times: seq<real>, j: nat, k: nat)
    requires j <= k < |times| && Clocked(start, times) && l.rate >= 0.0 && l.capacity >= 0.0
    ensures Count(Granted(l, start, times)[j..k + 1]) as real <= l.Room(times[j], times[k])
  {
    hide Count, Fits, Granted, Limit.Room;
    var g := Granted(l, start, times);
    assert g[j..k + 1] == g[j..k] + [g[k]];
    CountMore(g[j..k], g[k]);
    if g[k] {
      GrantedExactly(l, start, times, k);
      FitsWindow(l, start, times, g, k, j);
    } else if j < k {
      WindowBound(l, start, times, j, k - 1);
      RoomIsMonotone(l, times[j], times[k - 1], times[k]);
    } else {
      assert g[j..k] == [];
      NoneCounted();
      SameInstant(l, times[j]);
    }
  }

  /** The room of a window, in numbers: the capacity and what has flowed in. */
  lemma RoomIs(l: Limit, s: real, t: real)
    ensures l.Room(s, t) == l.capacity + l.rate * (t - s)
  {
  }

  lemma FitsWindow(l: Limit, start: real, times: seq<real>, bs: seq<bool>, k: nat, j: nat)
    requires j <= k && Fits(l, start, times, bs, k)
    ensures Count(bs[j..k]) as real + 1.0 <= l.Room(times[j], times[k])
  {
  }

  lemma RoomIsMonotone(l: Limit, s: real, t: real, u: real)
    requires t <= u && l.rate >= 0.0
    ensures l.Room(s, t) <= l.Room(s, u)
  {
    RoomGrows(l, s, t, u);
    Nonnegative(u - t, l.rate);
  }

  /** No other limiter that keeps every window within its room has granted more after any number of calls. */
  lemma {:induction false} NoneGrantsMore(l: Limit, start: real, times: seq<real>, other: seq<bool>, k: nat)
    requires k <= |times| && |other| == |times|
    requires forall i :: 0 <= i < k && other[i] ==> Fits(l, start, times, other, i)
    ensures Count(other[..k]) <= Count(Granted(l, start, times)[..k])
  {
    hide Fits, Count;
    if k > 0 {
      var g, i := Granted(l, start, times), k - 1;
      NoneGrantsMore(l, start, times, other, i);
      assert other[..k] == other[..i] + [other[i]] && g[..k] == g[..i] + [g[i]];
      CountMore(other[..i], other[i]);
      CountMore(g[..i], g[i]);
      if other[i] && !g[i] {
        GrantedExactly(l, start, times, i);
        var j := Blocking(l, start, times, g, other, i);
        if j >= 0 {
          NoneGrantsMore(l, start, times, other, j);
          CountSplit(other[..i], j);
          CountSplit(g[..i], j);
          assert other[..i][..j] == other[..j] && other[..i][j..] == other[j..i];
          assert g[..i][..j] == g[..j] && g[..i][j..] == g[j..i];
        }
      }
    } else {
      assert other[..0] == [] && Granted(l, start, times)[..0] == [];
    }
  }

  /** Where one list of grants leaves no room for call i and another does, a window in which the other has
      granted less: the one from the start when the result is -1. */
  lemma Blocking(l: Limit, start: real, times: seq<real>, g: seq<bool>, other: seq<bool>, i: nat) returns (j: int)
    requires i < |times| && i < |g| && i < |other|
    requires Fits(l, start, times, other, i) && !Fits(l, start, times, g, i)
    ensures -1 <= j <= i
    ensures if j < 0 then Count(other[..i]) < Count(g[..i]) else Count(other[j..i]) < Count(g[j..i])
  {
    hide Count, Limit.Room;
    if Count(g[..i]) as real + 1.0 > l.Room(start, times[i]) {
      j := -1;
    } else {
      j :| 0 <= j <= i && Count(g[j..i]) as real + 1.0 > l.Room(times[j], times[i]);
    }
  }

  /** The bucket never holds less than nothing or more than its capacity. */
  lemma {:induction false} TokensInRange(l: Limit, start: real, times: seq<real>)
    requires Clocked(start, times) && l.rate >= 0.0 && l.capacity >= 0.0
    ensures var b := After(l, start, times);
      0.0 <= b.tokens <= l.capacity && b.last == (if times == [] then start else times[|times| - 1])
  {
    if times != [] {
      var front, t := times[..|times| - 1], times[|times| - 1];
      TokensInRange(l, start, front);
      var b := After(l, start, front);
      assert front != [] ==> b.last == times[|times| - 2];
      assert t >= b.last;
      Nonnegative(t - b.last, l.rate);
      ConsumeInRange(l, b, t);
    }
  }

  lemma ConsumeInRange(l: Limit, b: Bucket, now: real)
    requires 0.0 <= b.tokens && l.capacity >= 0.0 && l.Gain(now - b.last) >= 0.0
    ensures 0.0 <= Consume(l, b, now).tokens <= l.capacity && Consume(l, b, now).last == now
  {
    hide Limit.Gain;
  }

  lemma Nonnegative(a: real, b: real)
    requires a >= 0.0 && b >= 0.0
    ensures a * b >= 0.0
  {
  }

  /** A caller that leaves 1/rate between calls is always granted, if the bucket holds a token at all. */
  lemma SteadyCallerIsGranted(l: Limit, start: real, times: seq<real>, k: nat)
    requires k < |times| && Clocked(start, times) && l.rate > 0.0 && l.capacity >= 1.0
    requires times[k] - (if k == 0 then start else times[k - 1]) >= 1.0 / l.rate
    ensures Granted(l, start, times)[k]
  {
    hide After, Granted, Level;
    var front, t := times[..k], times[k];
    GrantedFront(l, start, times, k + 1);
    assert times[..k + 1] == front + [t];
    OneMoreCall(l, start, front, t);
    assert Granted(l, start, times)[k] == Granted(l, start, times)[..k + 1][k];
    TokensInRange(l, start, front);
    FullAfter(l, After(l, start, front), t);
  }

  lemma FullAfter(l: Limit, b: Bucket, now: real)
    requires l.rate > 0.0 && now - b.last >= 1.0 / l.rate && b.tokens >= 0.0 && l.capacity >= 1.0
    ensures Level(l, b, now) >= 1.0
  {
    TimesRate(l.rate, now - b.last);
    assert l.Gain(now - b.last) >= 1.0;
    hide Limit.Gain;
  }

  lemma TimesRate(rate: real, elapsed: real)
    requires rate > 0.0 && elapsed >= 1.0 / rate
    ensures elapsed * rate >= 1.0
  {
    assert (1.0 / rate) * rate == 1.0;
    assert (elapsed - 1.0 / rate) * rate >= 0.0;
  }

  lemma {:induction false} OneMoreCall(l: Limit, start: real, times: seq<real>, now: real)
    ensures After(l, start, times + [now]) == Consume(l, After(l, start, times), now)
    ensures Granted(l, start, times + [now]) ==
            Granted(l, start, times) + [Level(l, After(l, start, times), now) >= 1.0]
  {
    hide Limit.Gain;
    assert (times + [now])[..|times|] == times;
  }

  /** The limiter as the object the program keeps. */
  class TokenBucket {
    const limit: Limit
    var tokens: real
    var lastRefill: real
    ghost const start: real
    ghost var times: seq<real>
    ghost var granted: seq<bool>

    /** The fields, and the answers given so far, are those of the run of calls made. */
    ghost predicate Valid()
      reads this
    {
      && Bucket(tokens, lastRefill) == After(limit, start, times)
      && granted == Granted(limit, start, times)
    }

    constructor (capacity: real, refillRate: real, now: real)
      ensures Valid() && limit == Limit(capacity, refillRate) && start == now && times == []
    {
      limit, tokens, lastRefill := Limit(capacity, refillRate), capacity, now;
      start, times, granted := now, [], [];
    }

    method Consume(now: real) returns (ok: bool)
      requires Valid()
      modifies this
      ensures Valid() && times == old(times) + [now] && granted == old(granted) + [ok]
      ensures ok <==> Fits(limit, start, times, granted, |granted| - 1)
    {
      hide After, Granted, Fits, Limit.Gain;
      OneMoreCall(limit, start, times, now);
      GrantedExactly(limit, start, times + [now], |times|);
      var elapsed := now - lastRefill;
      tokens := Min(limit.capacity, tokens + limit.Gain(elapsed));
      lastRefill := now;
      ok := tokens >= 1.0;
      if ok {
        tokens := tokens - 1.0;
      }
      times, granted := times + [now], granted + [ok];
    }
  }
}
