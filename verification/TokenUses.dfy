/** Delegation-token use counts over whole runs: the store that increments below the limit (in memory, or as
    one atomic script) and the store that increments first and compares afterwards. */
module TokenUses {
  import opened Wrappers

  datatype Store = IncrementIfBelow | IncrementThenCompare

  datatype Call = Call(id: string, limit: Option<int>)

  type Counts = map<string, nat>

  function Uses(counts: Counts, id: string): nat {
    if id in counts then counts[id] else 0
  }

  predicate Approves(counts: Counts, c: Call) {
    c.limit.None? || Uses(counts, c.id) < c.limit.value
  }

  function Step(store: Store, counts: Counts, c: Call): Counts {
    if store.IncrementThenCompare? || Approves(counts, c) then counts[c.id := Uses(counts, c.id) + 1] else counts
  }

  function After(store: Store, calls: seq<Call>): Counts {
    if calls == [] then map[] else Step(store, After(store, calls[..|calls| - 1]), calls[|calls| - 1])
  }

  /** Which calls are approved. */
  function Oks(store: Store, calls: seq<Call>): (oks: seq<bool>)
    ensures |oks| == |calls|
  {
    if calls == [] then []
    else
      var front := calls[..|calls| - 1];
      Oks(store, front) + [Approves(After(store, front), calls[|calls| - 1])]
  }

  function Presented(calls: seq<Call>, id: string): nat {
    if calls == [] then 0
    else Presented(calls[..|calls| - 1], id) + if calls[|calls| - 1].id == id then 1 else 0
  }

  /** The approved calls for a token, under whatever limit they came with. */
  function Approved(calls: seq<Call>, oks: seq<bool>, id: string): nat
    requires |oks| == |calls|
  {
    if calls == [] then 0
    else
      var n := |calls| - 1;
      Approved(calls[..n], oks[..n], id) + if calls[n].id == id && oks[n] then 1 else 0
  }

  /** The approved calls for a token that came with the limit m. */
  function ApprovedWith(calls: seq<Call>, oks: seq<bool>, id: string, m: int): nat
    requires |oks| == |calls|
  {
    if calls == [] then 0
    else
      var n := |calls| - 1;
      ApprovedWith(calls[..n], oks[..n], id, m) + if calls[n] == Call(id, Some(m)) && oks[n] then 1 else 0
  }

  lemma OksMore(store: Store, calls: seq<Call>, c: Call)
    ensures After(store, calls + [c]) == Step(store, After(store, calls), c)
    ensures Oks(store, calls + [c]) == Oks(store, calls) + [Approves(After(store, calls), c)]
  {
    assert (calls + [c])[..|calls|] == calls;
  }

  lemma {:induction false} OksFront(store: Store, calls: seq<Call>, k: nat)
    requires k <= |calls|
    ensures Oks(store, calls)[..k] == Oks(store, calls[..k])
  {
    if k < |calls| {
      var front := calls[..|calls| - 1];
      OksFront(store, front, k);
      assert front[..k] == calls[..k];
    } else {
      assert calls[..k] == calls;
    }
  }

  /** What a count counts: approvals in the one store, presentations in the other. */
  lemma {:induction false} CountMeans(store: Store, calls: seq<Call>, id: string)
    ensures Uses(After(store, calls), id) ==
            if store.IncrementIfBelow? then Approved(calls, Oks(store, calls), id) else Presented(calls, id)
  {
    if calls != [] {
      var n := |calls| - 1;
      CountMeans(store, calls[..n], id);
      assert Oks(store, calls)[..n] == Oks(store, calls[..n]);
    }
  }

  /** Call k is approved exactly when it has no limit, or its limit is above what was approved before
      (increment if below) or presented before (increment, then compare). */
  lemma ApprovedExactly(store: Store, calls: seq<Call>, k: nat)
    requires k < |calls|
    ensures Oks(store, calls)[k] <==>
            || calls[k].limit.None?
            || (if store.IncrementIfBelow? then Approved(calls[..k], Oks(store, calls)[..k], calls[k].id)
                else Presented(calls[..k], calls[k].id)) < calls[k].limit.value
  {
    hide Approved, Presented, Step, After;
    OksFront(store, calls, k);
    OksFront(store, calls, k + 1);
    assert calls[..k + 1] == calls[..k] + [calls[k]];
    OksMore(store, calls[..k], calls[k]);
    assert Oks(store, calls)[k] == Oks(store, calls)[..k + 1][k];
    CountMeans(store, calls[..k], calls[k].id);
  }

  lemma {:induction false} ApprovedBound(calls: seq<Call>, oks: seq<bool>, id: string, m: int)
    requires |oks| == |calls|
    ensures ApprovedWith(calls, oks, id, m) <= Approved(calls, oks, id) <= Presented(calls, id)
  {
    if calls != [] {
      var n := |calls| - 1;
      ApprovedBound(calls[..n], oks[..n], id, m);
    }
  }

  /** At most m calls with the limit m are approved for a token, whatever other limits its calls come with. */
  lemma {:induction false} UseLimit(store: Store, calls: seq<Call>, id: string, m: int)
    ensures ApprovedWith(calls, Oks(store, calls), id, m) <= if m < 0 then 0 else m
  {
    if calls != [] {
      var n := |calls| - 1;
      var front, oks := calls[..n], Oks(store, calls);
      UseLimit(store, front, id, m);
      assert oks[..n] == Oks(store, front);
      ApprovedExactly(store, calls, n);
      ApprovedBound(front, oks[..n], id, m);
    }
  }

  /** The two stores approve the same calls exactly when no call's limit lies above what was approved for
      its token and not above what was presented. */
  lemma StoresAgreeIff(calls: seq<Call>)
    ensures Oks(IncrementIfBelow, calls) == Oks(IncrementThenCompare, calls) <==>
            forall k :: 0 <= k < |calls| && calls[k].limit.Some? ==>
              !(Approved(calls[..k], Oks(IncrementIfBelow, calls)[..k], calls[k].id) < calls[k].limit.value
                <= Presented(calls[..k], calls[k].id))
  {
    hide Approved, Presented, Oks;
    var a, b := Oks(IncrementIfBelow, calls), Oks(IncrementThenCompare, calls);
    forall k | 0 <= k < |calls|
      ensures a[k] == b[k] <==>
              (calls[k].limit.Some? ==>
                 !(Approved(calls[..k], a[..k], calls[k].id) < calls[k].limit.value
                   <= Presented(calls[..k], calls[k].id)))
    {
      ApprovedExactly(IncrementIfBelow, calls, k);
      ApprovedExactly(IncrementThenCompare, calls, k);
      ApprovedBound(calls[..k], a[..k], calls[k].id, 0);
    }
    assert a == b <==> forall k :: 0 <= k < |calls| ==> a[k] == b[k];
  }

  /** The store that compares afterwards approves nothing the other would not. */
  lemma CompareAfterwardsIsStricter(calls: seq<Call>, k: nat)
    requires k < |calls| && Oks(IncrementThenCompare, calls)[k]
    ensures Oks(IncrementIfBelow, calls)[k]
  {
    ApprovedExactly(IncrementIfBelow, calls, k);
    ApprovedExactly(IncrementThenCompare, calls, k);
    ApprovedBound(calls[..k], Oks(IncrementIfBelow, calls)[..k], calls[k].id, 0);
  }

  /** Every call for a token comes with the same limit. */
  predicate FixedLimits(calls: seq<Call>) {
    forall i, j :: 0 <= i < |calls| && 0 <= j < |calls| && calls[i].id == calls[j].id ==>
      calls[i].limit == calls[j].limit
  }

  lemma {:induction false} ApprovedUnderFixedLimit(calls: seq<Call>, id: string, limit: Option<int>)
    requires forall i :: 0 <= i < |calls| && calls[i].id == id ==> calls[i].limit == limit
    ensures var approved, presented := Approved(calls, Oks(IncrementIfBelow, calls), id), Presented(calls, id);
      approved == if limit.None? || presented <= limit.value then presented
                  else if limit.value < 0 then 0 else limit.value
  {
    if calls != [] {
      var n := |calls| - 1;
      var front, oks := calls[..n], Oks(IncrementIfBelow, calls);
      ApprovedUnderFixedLimit(front, id, limit);
      assert oks[..n] == Oks(IncrementIfBelow, front);
      ApprovedExactly(IncrementIfBelow, calls, n);
    }
  }

  /** With a fixed limit per token both stores approve exactly the first uses, up to the limit. */
  lemma FixedLimitsAgree(store: Store, calls: seq<Call>, k: nat)
    requires FixedLimits(calls) && k < |calls|
    ensures Oks(store, calls)[k] <==>
            calls[k].limit.None? || Presented(calls[..k], calls[k].id) < calls[k].limit.value
  {
    hide Approved, Presented;
    ApprovedExactly(store, calls, k);
    ApprovedUnderFixedLimit(calls[..k], calls[k].id, calls[k].limit);
    OksFront(IncrementIfBelow, calls, k);
  }

  /** With mixed limits they do come apart: a use refused under a small limit still counts in the one store. */
  lemma MixedLimitsDisagree(id: string)
    ensures var calls := [Call(id, Some(0)), Call(id, Some(1))];
      Oks(IncrementIfBelow, calls) == [false, true] && Oks(IncrementThenCompare, calls) == [false, false]
  {
    var a, b := Call(id, Some(0)), Call(id, Some(1));
    assert [a, b] == ([] + [a]) + [b];
    OksMore(IncrementIfBelow, [], a);
    OksMore(IncrementThenCompare, [], a);
    OksMore(IncrementIfBelow, [] + [a], b);
    OksMore(IncrementThenCompare, [] + [a], b);
  }
}
