/** Message dispatch behind delegation tokens: which messages reach a handler, over whole runs of a server. */
module Dispatch {
  import opened Wrappers
  import opened TokenUses
  import opened TokenStores

  datatype Token = Token(
    id: string, delegator: string, delegate: string, expiresAt: Option<real>, maxUses: Option<int>, useCount: int)

  datatype Carried = NoToken | Malformed | Carries(token: Token)

  datatype Message = Message(from: string, intent: string, carried: Carried)

  /** What checking the token's signature comes to; an undecodable signature raises. */
  datatype SignatureCheck = Genuine | Forged | NoCryptography | Undecodable

  /** What the server finds out about one message: whether the caller has checked the message signature or
      the check succeeds, the two clock readings, whether the delegator's DID resolves, and the signature. */
  datatype Finding = Finding(
    preverified: bool, signed: bool, now: real, later: real, resolves: bool, check: SignatureCheck)

  datatype Reply =
    | InvalidSignature | InvalidToken | Unauthorized | Exhausted | Unverifiable | InvalidTokenSignature
    | Raised | Unhandled | Handled(handler: nat)

  datatype Op = On(intent: string, handler: nat) | Receive(m: Message, f: Finding)

  function Expired(t: Token, now: real): bool {
    t.expiresAt.Some? && now > t.expiresAt.value
  }

  /** is_valid: reads the count on the wire. */
  function IsValid(t: Token, now: real): bool {
    !Expired(t, now) && !(t.maxUses.Some? && t.useCount >= t.maxUses.value)
  }

  /** Whether handling the message gets as far as the token store. */
  predicate AsksStore(secret: bool, m: Message, f: Finding) {
    && (secret ==> f.preverified || f.signed)
    && m.carried.Carries? && m.carried.token.delegate == m.from && !Expired(m.carried.token, f.now)
  }

  function CallOf(t: Token): Call {
    Call(t.id, t.maxUses)
  }

  // ---------------------------------------------------------------------------
  // Runs
  // ---------------------------------------------------------------------------

  function Handlers(ops: seq<Op>): map<string, nat> {
    if ops == [] then map[]
    else
      var front, last := Handlers(ops[..|ops| - 1]), ops[|ops| - 1];
      if last.On? then front[last.intent := last.handler] else front
  }

  function StoreCalls(secret: bool, ops: seq<Op>): seq<Call> {
    if ops == [] then []
    else
      var front, last := StoreCalls(secret, ops[..|ops| - 1]), ops[|ops| - 1];
      if last.Receive? && AsksStore(secret, last.m, last.f) then front + [CallOf(last.m.carried.token)] else front
  }

  /** A message is handled exactly when the server wants it signed only if it is, a token it carries is the
      sender's, unexpired, has a use left in the store and on the wire and verifies, and its intent has a
      handler. */
  ghost predicate MayHandle(store: Store, secret: bool, before: seq<Op>, m: Message, f: Finding) {
    && (secret ==> f.preverified || f.signed)
    && !m.carried.Malformed?
    && (m.carried.Carries? ==>
          var t := m.carried.token;
          && t.delegate == m.from && !Expired(t, f.now)
          && (t.maxUses.Some? ==> UsesBefore(store, secret, before, t.id) < t.maxUses.value)
          && f.resolves && f.check == Genuine
          && !Expired(t, f.later) && (t.maxUses.Some? ==> t.useCount < t.maxUses.value))
    && m.intent in Handlers(before)
  }

  /** The uses the store has counted for a token. */
  function UsesBefore(store: Store, secret: bool, before: seq<Op>, id: string): nat {
    Uses(After(store, StoreCalls(secret, before)), id)
  }

  predicate CarriesUnder(op: Op, id: string, m: int) {
    op.Receive? && op.m.carried.Carries? && op.m.carried.token.id == id && op.m.carried.token.maxUses == Some(m)
  }

  /** How many messages carrying the token with the limit m were handled. */
  ghost function HandledUnder(store: Store, secret: bool, ops: seq<Op>, id: string, m: int): nat {
    if ops == [] then 0
    else
      var front, last := ops[..|ops| - 1], ops[|ops| - 1];
      HandledUnder(store, secret, front, id, m)
      + if CarriesUnder(last, id, m) && MayHandle(store, secret, front, last.m, last.f) then 1 else 0
  }

  lemma HandledIsApproved(store: Store, secret: bool, ops: seq<Op>, id: string, m: int)
    requires ops != []
    ensures var front, last := ops[..|ops| - 1], ops[|ops| - 1];
      var was, now := StoreCalls(secret, front), StoreCalls(secret, ops);
      ApprovedWith(now, Oks(store, now), id, m) >= ApprovedWith(was, Oks(store, was), id, m)
        + if CarriesUnder(last, id, m) && MayHandle(store, secret, front, last.m, last.f) then 1 else 0
  {
    hide ApprovedWith, Handlers, After, Step, Oks;
    var front, last := ops[..|ops| - 1], ops[|ops| - 1];
    if last.Receive? && AsksStore(secret, last.m, last.f) {
      var was, c := StoreCalls(secret, front), CallOf(last.m.carried.token);
      OksMore(store, was, c);
      ApprovedWithMore(was, Oks(store, was), c, Approves(After(store, was), c), id, m);
    }
  }

  lemma ApprovedWithMore(calls: seq<Call>, oks: seq<bool>, c: Call, ok: bool, id: string, m: int)
    requires |oks| == |calls|
    ensures ApprovedWith(calls + [c], oks + [ok], id, m) ==
            ApprovedWith(calls, oks, id, m) + if c == Call(id, Some(m)) && ok then 1 else 0
  {
    assert (calls + [c])[..|calls|] == calls && (oks + [ok])[..|oks|] == oks;
  }

  lemma {:induction false} HandledAtMostApproved(store: Store, secret: bool, ops: seq<Op>, id: string, m: int)
    ensures var calls := StoreCalls(secret, ops);
      HandledUnder(store, secret, ops, id, m) <= ApprovedWith(calls, Oks(store, calls), id, m)
  {
    hide MayHandle, StoreCalls, ApprovedWith;
    if ops != [] {
      HandledAtMostApproved(store, secret, ops[..|ops| - 1], id, m);
      HandledIsApproved(store, secret, ops, id, m);
    }
  }

  /** No run of the server hands more than m messages with a given token and the limit m to a handler,
      whatever other limits the same token id arrives with. */
  lemma AtMostLimitHandled(store: Store, secret: bool, ops: seq<Op>, id: string, m: int)
    ensures HandledUnder(store, secret, ops, id, m) <= if m < 0 then 0 else m
  {
    HandledAtMostApproved(store, secret, ops, id, m);
    UseLimit(store, StoreCalls(secret, ops), id, m);
  }

  // ---------------------------------------------------------------------------
  // Which uses are taken
  // ---------------------------------------------------------------------------

  predicate CarriesId(op: Op, id: string) {
    op.Receive? && op.m.carried.Carries? && op.m.carried.token.id == id
  }

  /** How many messages naming the token got as far as the store. */
  function Asking(secret: bool, ops: seq<Op>, id: string): nat {
    if ops == [] then 0
    else
      var last := ops[|ops| - 1];
      Asking(secret, ops[..|ops| - 1], id)
      + if CarriesId(last, id) && AsksStore(secret, last.m, last.f) then 1 else 0
  }

  /** Every message that names the token comes with the limit m. */
  predicate OneLimit(ops: seq<Op>, id: string, m: int) {
    forall k :: 0 <= k < |ops| && CarriesId(ops[k], id) ==> ops[k].m.carried.token.maxUses == Some(m)
  }

  /** Nothing but its uses can stand in the way of the message, with its token under the limit m. */
  predicate Proper(secret: bool, m: Message, f: Finding, limit: int) {
    && AsksStore(secret, m, f) && f.resolves && f.check == Genuine
    && !Expired(m.carried.token, f.later) && m.carried.token.useCount < limit
  }

  lemma OpsMore(secret: bool, ops: seq<Op>, op: Op)
    ensures Handlers(ops + [op]) == if op.On? then Handlers(ops)[op.intent := op.handler] else Handlers(ops)
    ensures StoreCalls(secret, ops + [op]) ==
            if op.Receive? && AsksStore(secret, op.m, op.f)
            then StoreCalls(secret, ops) + [CallOf(op.m.carried.token)] else StoreCalls(secret, ops)
  {
    assert (ops + [op])[..|ops|] == ops;
  }

  lemma UsesStep(store: Store, secret: bool, front: seq<Op>, op: Op, id: string)
    ensures UsesBefore(store, secret, front + [op], id) ==
            if op.Receive? && AsksStore(secret, op.m, op.f) && op.m.carried.token.id == id
               && (store.IncrementThenCompare? || op.m.carried.token.maxUses.None?
                   || UsesBefore(store, secret, front, id) < op.m.carried.token.maxUses.value)
            then UsesBefore(store, secret, front, id) + 1 else UsesBefore(store, secret, front, id)
  {
    hide StoreCalls, After;
    OpsMore(secret, front, op);
    if op.Receive? && AsksStore(secret, op.m, op.f) {
      CountStep(store, StoreCalls(secret, front), CallOf(op.m.carried.token), id);
    }
  }

  lemma CountStep(store: Store, calls: seq<Call>, c: Call, id: string)
    ensures var uses := Uses(After(store, calls), id);
      Uses(After(store, calls + [c]), id) ==
      if c.id == id && (store.IncrementThenCompare? || c.limit.None? || uses < c.limit.value) then uses + 1 else uses
  {
    hide After;
    OksMore(store, calls, c);
  }

  lemma {:induction false} UsesUnderLimit(store: Store, secret: bool, ops: seq<Op>, id: string, m: int)
    requires OneLimit(ops, id, m)
    ensures var uses, n := UsesBefore(store, secret, ops, id), Asking(secret, ops, id);
      if store.IncrementThenCompare? || n <= m then uses == n else uses == if m < 0 then 0 else m
  {
    hide UsesBefore, AsksStore;
    if ops == [] {
      NoUses(store, secret, id);
    } else {
      var front, last := ops[..|ops| - 1], ops[|ops| - 1];
      assert ops == front + [last];
      UsesUnderLimit(store, secret, front, id, m);
      UsesStep(store, secret, front, last, id);
      if last.Receive? {
        AsksCarries(secret, last.m, last.f);
      }
    }
  }

  lemma NoUses(store: Store, secret: bool, id: string)
    ensures UsesBefore(store, secret, [], id) == 0
  {
  }

  lemma AsksCarries(secret: bool, m: Message, f: Finding)
    ensures AsksStore(secret, m, f) ==> m.carried.Carries?
  {
  }

  /** When all messages naming a token carry the limit m, a proper one is handled exactly when fewer than m
      earlier messages naming the token, forged or not, got as far as the store: with either store. */
  lemma FirstUsesAreHandled(store: Store, secret: bool, ops: seq<Op>, id: string, m: int, k: nat)
    requires OneLimit(ops, id, m)
    requires k < |ops| && CarriesId(ops[k], id) && Proper(secret, ops[k].m, ops[k].f, m)
    ensures MayHandle(store, secret, ops[..k], ops[k].m, ops[k].f) <==>
            Asking(secret, ops[..k], id) < m && ops[k].m.intent in Handlers(ops[..k])
  {
    hide UsesBefore, Asking, Handlers;
    UsesUnderLimit(store, secret, ops[..k], id, m);
    assert ops[k].m.carried.token.maxUses == Some(m);
  }

  /** A use was taken and the message was not handled: exactly when the message reached the store, was counted
      there, and failed behind it, or was refused there by the store that counts refusals. */
  lemma UseIsWastedIff(store: Store, secret: bool, before: seq<Op>, m: Message, f: Finding)
    requires m.carried.Carries?
    ensures var t, after := m.carried.token, before + [Receive(m, f)];
      var room := t.maxUses.None? || UsesBefore(store, secret, before, t.id) < t.maxUses.value;
      UsesBefore(store, secret, after, t.id) > UsesBefore(store, secret, before, t.id)
        && !MayHandle(store, secret, before, m, f)
      <==>
      AsksStore(secret, m, f)
        && if room then !f.resolves || f.check != Genuine || !IsValid(t, f.later) || m.intent !in Handlers(before)
           else store.IncrementThenCompare?
  {
    hide UsesBefore, Handlers;
    UsesStep(store, secret, before, Receive(m, f), m.carried.token.id);
  }

  /** A forged token that names another's id, presented by its own delegate, takes the only use: the genuine
      message behind it is refused. */
  lemma ForgedTokenTakesTheUse(t: Token, thief: string, f: Finding, g: Finding, intent: string)
    requires t.maxUses == Some(1) && t.useCount < 1 && t.expiresAt.None?
    requires f.preverified && f.resolves && f.check == Forged
    requires g.preverified && g.resolves && g.check == Genuine
    ensures var forged := Receive(Message(thief, intent, Carries(t.(delegate := thief))), f);
      var genuine := Message(t.delegate, intent, Carries(t));
      var registered := [On(intent, 0)];
      && MayHandle(IncrementIfBelow, true, registered, genuine, g)
      && !MayHandle(IncrementIfBelow, true, registered + [forged], genuine, g)
  {
    var forged := Receive(Message(thief, intent, Carries(t.(delegate := thief))), f);
    var registered := [On(intent, 0)];
    assert registered == [] + registered;
    UsesStep(IncrementIfBelow, true, [], On(intent, 0), t.id);
    UsesStep(IncrementIfBelow, true, registered, forged, t.id);
    NoUses(IncrementIfBelow, true, t.id);
    OpsMore(true, [], On(intent, 0));
  }

  /** So does a message whose own use count has reached the limit: the wire's count is consulted after the
      store has taken a use. */
  lemma WireCountWastesAUse(t: Token, f: Finding, intent: string)
    requires t.maxUses.Some? && 0 < t.maxUses.value <= t.useCount
    requires !Expired(t, f.now) && f.preverified
    ensures var m := Message(t.delegate, intent, Carries(t));
      && UsesBefore(IncrementIfBelow, true, [On(intent, 0), Receive(m, f)], t.id) == 1
      && !MayHandle(IncrementIfBelow, true, [On(intent, 0)], m, f)
  {
    var m := Message(t.delegate, intent, Carries(t));
    assert [On(intent, 0), Receive(m, f)] == ([] + [On(intent, 0)]) + [Receive(m, f)];
    NoUses(IncrementIfBelow, true, t.id);
    UsesStep(IncrementIfBelow, true, [], On(intent, 0), t.id);
    UsesStep(IncrementIfBelow, true, [] + [On(intent, 0)], Receive(m, f), t.id);
  }

  // ---------------------------------------------------------------------------
  // The server
  // ---------------------------------------------------------------------------

  class ROARServer {
    const secret: bool
    var handlers: map<string, nat>
    const store: InMemoryTokenStore
    ghost var ops: seq<Op>

    ghost predicate Valid()
      reads this, store
    {
      && store.Valid() && store.calls == StoreCalls(secret, ops)
      && handlers == Handlers(ops)
    }

    constructor (secret: bool)
      ensures Valid() && fresh(store) && this.secret == secret && ops == []
    {
      this.secret, handlers, ops := secret, map[], [];
      store := new InMemoryTokenStore();
    }

    method On(intent: string, handler: nat)
      requires Valid()
      modifies this
      ensures Valid() && ops == old(ops) + [Op.On(intent, handler)]
      ensures handlers == old(handlers)[intent := handler]
    {
      OpsMore(secret, ops, Op.On(intent, handler));
      handlers := handlers[intent := handler];
      ops := ops + [Op.On(intent, handler)];
    }

    /** The reply is that of a handler exactly when the message may be handled; and only messages that get as
        far as the store change it. */
    method HandleMessage(m: Message, f: Finding) returns (r: Reply)
      requires Valid()
      modifies this`ops, store
      ensures Valid() && ops == old(ops) + [Receive(m, f)]
      ensures r.Handled? <==> MayHandle(IncrementIfBelow, secret, old(ops), m, f)
      ensures r.Handled? ==> r.handler == handlers[m.intent]
      ensures AsksStore(secret, m, f) || store.counts == old(store.counts)
      ensures r.InvalidSignature? <==> secret && !f.preverified && !f.signed
      ensures r.InvalidToken? <==> !r.InvalidSignature? && m.carried.Malformed?
      ensures r.Unauthorized? <==>
                !r.InvalidSignature? && m.carried.Carries? && m.carried.token.delegate != m.from
      ensures r.Exhausted? <==>
                && !r.InvalidSignature? && m.carried.Carries? && m.carried.token.delegate == m.from
                && var t := m.carried.token;
                   || (t.expiresAt.Some? && f.now > t.expiresAt.value)
                   || (t.maxUses.Some?
                       && Approved(old(store.calls), Oks(IncrementIfBelow, old(store.calls)), t.id) >= t.maxUses.value)
      ensures r.Handled? && m.carried.Carries? ==>
                var t := m.carried.token;
                && t.delegate == m.from && f.resolves && f.check == Genuine
                && (t.expiresAt.Some? ==> f.now <= t.expiresAt.value && f.later <= t.expiresAt.value)
                && (t.maxUses.Some? ==> t.useCount < t.maxUses.value)
      ensures r.Unverifiable? ==> m.carried.Carries? && (!f.resolves || f.check == NoCryptography)
      ensures r.InvalidTokenSignature? ==>
                && m.carried.Carries? && f.resolves
                && var t := m.carried.token;
                   || f.check == Forged || (t.expiresAt.Some? && f.later > t.expiresAt.value)
                   || (t.maxUses.Some? && t.useCount >= t.maxUses.value)
      ensures r.Raised? ==> m.carried.Carries? && f.resolves && f.check == Undecodable
      ensures r.Unhandled? ==> m.intent !in handlers
    {
      hide StoreCalls, After, Handlers, Approved, Oks;
      OpsMore(secret, ops, Receive(m, f));
      ghost var before := ops;
      ops := ops + [Receive(m, f)];
      if secret && !f.preverified && !f.signed {
        return InvalidSignature;
      }
      if m.carried.Malformed? {
        return InvalidToken;
      }
      if m.carried.Carries? {
        var t := m.carried.token;
        if t.delegate != m.from {
          return Unauthorized;
        }
        if Expired(t, f.now) {
          return Exhausted;
        }
        CountMeans(IncrementIfBelow, store.calls, t.id);
        var ok := store.GetAndIncrement(t.id, t.maxUses);
        if !ok {
          return Exhausted;
        }
        if !f.resolves {
          return Unverifiable;
        }
        if f.check == NoCryptography {
          return Unverifiable;
        }
        if !IsValid(t, f.later) {
          return InvalidTokenSignature;
        }
        match f.check {
          case Forged => return InvalidTokenSignature;
          case Undecodable => return Raised;
          case Genuine =>
          case NoCryptography =>
        }
      }
      if m.intent !in handlers {
        return Unhandled;
      }
      return Handled(handlers[m.intent]);
    }
  }
}
