/** Runtime capability grants: the token table, the index by grantee, and what a run of grants, revocations
    and clean-ups leaves an agent allowed to do. */
module GrantLaws {
  datatype Level = Watch | Guide | Delegate | Autonomous {
    function Rank(): nat { if Watch? then 0 else if Guide? then 1 else if Delegate? then 2 else 3 }
  }

  datatype Token = Token(grantee: string, capabilities: seq<string>, level: Level, expiresAt: real, revoked: bool) {
    predicate Expired(now: real) { expiresAt > 0.0 && now > expiresAt }
    predicate Valid(now: real) { !revoked && !Expired(now) }
    predicate Allows(capability: string, now: real) {
      Valid(now) && (capability in capabilities || "*" in capabilities)
    }
  }

  type Table = map<string, Token>
  type Index = map<string, seq<string>>

  datatype Op = Grant(id: string, token: Token) | Revoke(id: string) | CleanUp(now: real)

  function IdsOf(index: Index, grantee: string): seq<string> {
    if grantee in index then index[grantee] else []
  }

  /** The index lists each grantee's tokens, all of them, once each. */
  ghost predicate Indexed(table: Table, index: Index) {
    forall g :: Lists(table, IdsOf(index, g), g)
  }

  predicate Distinct(ids: seq<string>) {
    forall i, j :: 0 <= i < j < |ids| ==> ids[i] != ids[j]
  }

  ghost predicate Lists(table: Table, ids: seq<string>, grantee: string) {
    && Distinct(ids)
    && (forall id :: id in ids <==> id in table && table[id].grantee == grantee)
  }

  // ---------------------------------------------------------------------------
  // Questions about the table
  // ---------------------------------------------------------------------------

  predicate Lets(t: Token, agent: string, capability: string, least: Level, now: real) {
    t.grantee == agent && t.Allows(capability, now) && t.level.Rank() >= least.Rank()
  }

  ghost predicate Authorized(table: Table, agent: string, capability: string, least: Level, now: real) {
    exists id :: id in table && Lets(table[id], agent, capability, least, now)
  }

  /** level is the highest any valid token gives the agent, and Watch when none gives more. */
  ghost predicate Highest(table: Table, agent: string, now: real, level: Level) {
    && (forall id :: id in table && table[id].grantee == agent && table[id].Valid(now)
          ==> table[id].level.Rank() <= level.Rank())
    && (level != Watch ==>
          exists id :: id in table && table[id].grantee == agent && table[id].Valid(now) && table[id].level == level)
  }

  lemma HighestIsUnique(table: Table, agent: string, now: real, a: Level, b: Level)
    requires Highest(table, agent, now, a) && Highest(table, agent, now, b)
    ensures a == b
  {
    assert a.Rank() <= b.Rank() && b.Rank() <= a.Rank();
  }

  /** The levels ascend in the order of their declaration. */
  lemma LevelAtLeast(a: Level, b: Level)
    ensures a.Rank() >= b.Rank() <==>
            match b
            case Watch => true
            case Guide => a != Watch
            case Delegate => a == Delegate || a == Autonomous
            case Autonomous => a == Autonomous
  {
  }

  /** When a token lets an agent act, said of its fields. */
  lemma LetsIs(t: Token, agent: string, capability: string, least: Level, now: real)
    ensures Lets(t, agent, capability, least, now) <==>
            && t.grantee == agent && !t.revoked && (t.expiresAt <= 0.0 || now <= t.expiresAt)
            && (exists i :: 0 <= i < |t.capabilities| && (t.capabilities[i] == capability || t.capabilities[i] == "*"))
            && (least == Watch || t.level == least || t.level == Autonomous || (least == Guide && t.level == Delegate))
  {
  }

  // ---------------------------------------------------------------------------
  // Steps
  // ---------------------------------------------------------------------------

  function Cleaned(table: Table, now: real): (r: Table)
    ensures forall id :: id in r <==> id in table && table[id].Valid(now)
    ensures forall id :: id in r ==> r[id] == table[id]
  {
    map id | id in table && table[id].Valid(now) :: table[id]
  }

  function Next(table: Table, op: Op): Table {
    match op
    case Grant(id, token) => table[id := token]
    case Revoke(id) => if id in table then table[id := table[id].(revoked := true)] else table
    case CleanUp(now) => Cleaned(table, now)
  }

  /** A token that is valid later is valid now. */
  lemma ValidEarlier(t: Token, now: real, later: real)
    requires now <= later
    ensures t.Valid(later) ==> t.Valid(now)
  {
  }

  /** A clean-up changes no answer, then or later. */
  lemma CleanUpChangesNoAnswer(table: Table, now: real, later: real, agent: string, capability: string,
                               least: Level, level: Level)
    requires now <= later
    ensures Authorized(Cleaned(table, now), agent, capability, least, later) <==>
            Authorized(table, agent, capability, least, later)
    ensures Highest(Cleaned(table, now), agent, later, level) <==> Highest(table, agent, later, level)
  {
    hide Cleaned, Lets, Token.Valid;
    var clean := Cleaned(table, now);
    forall id | id in table
      ensures table[id].Valid(later) ==> id in clean && clean[id] == table[id]
    {
      ValidEarlier(table[id], now, later);
    }
    if Authorized(table, agent, capability, least, later) {
      var id :| id in table && Lets(table[id], agent, capability, least, later);
      LetsIsValid(table[id], agent, capability, least, later);
      assert id in clean && Lets(clean[id], agent, capability, least, later);
    }
    if Highest(table, agent, later, level) && level != Watch {
      var id :| id in table && table[id].grantee == agent && table[id].Valid(later) && table[id].level == level;
      assert id in clean && clean[id].level == level;
    }
  }

  lemma LetsIsValid(t: Token, agent: string, capability: string, least: Level, now: real)
    requires Lets(t, agent, capability, least, now)
    ensures t.Valid(now)
  {
  }

  // ---------------------------------------------------------------------------
  // Runs
  // ---------------------------------------------------------------------------

  function Run(ops: seq<Op>): Table {
    if ops == [] then map[] else Next(Run(ops[..|ops| - 1]), ops[|ops| - 1])
  }

  /** Every grant makes an unrevoked token under an id of its own, and the clock never goes back past now. */
  predicate Proper(ops: seq<Op>, now: real) {
    && (forall k :: 0 <= k < |ops| && ops[k].Grant? ==> !ops[k].token.revoked)
    && (forall j, k :: 0 <= j < k < |ops| && ops[j].Grant? && ops[k].Grant? ==> ops[j].id != ops[k].id)
    && (forall k :: 0 <= k < |ops| && ops[k].CleanUp? ==> ops[k].now <= now)
  }

  /** Step k granted t under id and no later step revoked it. */
  predicate StandsSince(ops: seq<Op>, k: int, id: string, t: Token) {
    && 0 <= k < |ops| && ops[k] == Grant(id, t)
    && forall j :: k < j < |ops| ==> ops[j] != Revoke(id)
  }

  ghost predicate Stands(ops: seq<Op>, id: string, t: Token) {
    exists k: int :: StandsSince(ops, k, id, t)
  }

  lemma StandsMore(front: seq<Op>, op: Op, id: string, t: Token)
    ensures Stands(front + [op], id, t) <==> op == Grant(id, t) || (Stands(front, id, t) && op != Revoke(id))
  {
    var ops := front + [op];
    if Stands(ops, id, t) {
      var k: int :| StandsSince(ops, k, id, t);
      if k < |front| {
        assert ops[|front|] == op;
        assert forall j :: 0 <= j < |front| ==> ops[j] == front[j];
        assert StandsSince(front, k, id, t);
      }
    }
    if Stands(front, id, t) && op != Revoke(id) {
      var k: int :| StandsSince(front, k, id, t);
      assert StandsSince(ops, k, id, t);
    }
    if op == Grant(id, t) {
      assert StandsSince(ops, |front|, id, t);
    }
  }

  lemma GrantIsOnce(front: seq<Op>, op: Op, now: real, t: Token)
    requires Proper(front + [op], now) && op.Grant?
    ensures !Stands(front, op.id, t)
  {
    var ops := front + [op];
    assert ops[|front|] == op && forall k :: 0 <= k < |front| ==> ops[k] == front[k];
  }

  lemma ProperFront(front: seq<Op>, op: Op, now: real)
    requires Proper(front + [op], now)
    ensures Proper(front, now)
    ensures op.Grant? ==> !op.token.revoked
    ensures op.CleanUp? ==> op.now <= now
  {
    var ops := front + [op];
    assert ops[|front|] == op;
    assert forall j :: 0 <= j < |front| ==> ops[j] == front[j];
  }

  /** In every run, a token is valid in the table exactly when it was granted, not revoked since, and has not
      expired: clean-ups show nowhere. */
  lemma {:induction false} ValidIffStanding(ops: seq<Op>, now: real, id: string, t: Token)
    requires Proper(ops, now)
    ensures id in Run(ops) && Run(ops)[id] == t && t.Valid(now) <==> Stands(ops, id, t) && !t.Expired(now)
    ensures Stands(ops, id, t) ==> !t.revoked
  {
    hide Proper, Stands;
    if ops == [] {
      NothingStands(id, t);
    } else {
      var front, op := ops[..|ops| - 1], ops[|ops| - 1];
      assert ops == front + [op];
      ProperFront(front, op, now);
      ValidIffStanding(front, now, id, t);
      StandsMore(front, op, id, t);
      match op {
        case Grant(i, token) => GrantIsOnce(front, op, now, t);
        case Revoke(i) =>
        case CleanUp(s) => ValidEarlier(t, s, now);
      }
    }
  }

  lemma NothingStands(id: string, t: Token)
    ensures !Stands([], id, t)
  {
  }

  /** An agent is authorized exactly when some grant to it stands, has not expired, covers the capability and
      reaches the level. */
  lemma AuthorizedIffGranted(ops: seq<Op>, now: real, agent: string, capability: string, least: Level)
    requires Proper(ops, now)
    ensures Authorized(Run(ops), agent, capability, least, now) <==>
            exists id, t :: Stands(ops, id, t) && Lets(t, agent, capability, least, now)
  {
    hide Proper, Stands, Run;
    var table := Run(ops);
    if Authorized(table, agent, capability, least, now) {
      var id :| id in table && Lets(table[id], agent, capability, least, now);
      ValidIffStanding(ops, now, id, table[id]);
    }
    if id, t :| Stands(ops, id, t) && Lets(t, agent, capability, least, now) {
      ValidIffStanding(ops, now, id, t);
    }
  }
}
