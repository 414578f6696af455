/** The runtime delegation manager as the object the program keeps. */
module Autonomy {
  import opened GrantLaws

  /** The list without the first occurrence of id. */
  function Without(ids: seq<string>, id: string): seq<string> {
    if ids == [] then [] else if ids[0] == id then ids[1..] else [ids[0]] + Without(ids[1..], id)
  }

  lemma DistinctCons(id: string, ids: seq<string>)
    ensures Distinct([id] + ids) <==> id !in ids && Distinct(ids)
  {
    var all := [id] + ids;
    assert forall k :: 0 <= k < |ids| ==> all[k + 1] == ids[k];
    if Distinct(all) {
      forall k | 0 <= k < |ids|
        ensures ids[k] != id
      {
        assert all[0] != all[k + 1];
      }
      forall i, j | 0 <= i < j < |ids|
        ensures ids[i] != ids[j]
      {
        assert all[i + 1] != all[j + 1];
      }
    }
  }

  lemma {:induction false} WithoutDrops(ids: seq<string>, id: string)
    requires Distinct(ids)
    ensures Distinct(Without(ids, id)) && forall x :: x in Without(ids, id) <==> x in ids && x != id
  {
    hide Distinct;
    if ids != [] {
      assert ids == [ids[0]] + ids[1..];
      DistinctCons(ids[0], ids[1..]);
      WithoutDrops(ids[1..], id);
      DistinctCons(ids[0], Without(ids[1..], id));
    }
  }

  lemma GrantLists(table: Table, index: Index, id: string, t: Token, g: string)
    requires Indexed(table, index) && id !in table
    ensures Lists(table[id := t], IdsOf(index[t.grantee := IdsOf(index, t.grantee) + [id]], g), g)
  {
    assert Lists(table, IdsOf(index, g), g);
  }

  lemma GrantKeepsIndex(table: Table, index: Index, id: string, t: Token)
    requires Indexed(table, index) && id !in table
    ensures Indexed(table[id := t], index[t.grantee := IdsOf(index, t.grantee) + [id]])
  {
    hide Lists;
    var after := index[t.grantee := IdsOf(index, t.grantee) + [id]];
    forall g
      ensures Lists(table[id := t], IdsOf(after, g), g)
    {
      GrantLists(table, index, id, t, g);
    }
  }

  lemma RevokeKeepsIndex(table: Table, index: Index, id: string)
    requires Indexed(table, index) && id in table
    ensures Indexed(table[id := table[id].(revoked := true)], index)
  {
    forall g
      ensures Lists(table[id := table[id].(revoked := true)], IdsOf(index, g), g)
    {
      assert Lists(table, IdsOf(index, g), g);
    }
  }

  lemma DropKeepsIndex(table: Table, index: Index, id: string)
    requires Indexed(table, index) && id in table
    ensures var g := table[id].grantee;
      Indexed(table - {id}, if id in IdsOf(index, g) then index[g := Without(IdsOf(index, g), id)] else index)
    ensures id in IdsOf(index, table[id].grantee)
  {
    var g := table[id].grantee;
    assert Lists(table, IdsOf(index, g), g);
    var after := index[g := Without(IdsOf(index, g), id)];
    WithoutDrops(IdsOf(index, g), id);
    forall other
      ensures Lists(table - {id}, IdsOf(after, other), other)
    {
      assert Lists(table, IdsOf(index, other), other);
    }
  }

  /** What is left of the table while todo is what is left of the dead. */
  predicate Remains(table: Table, dead: set<string>, todo: set<string>, left: Table) {
    todo <= dead <= table.Keys && left == table - (dead - todo)
  }

  lemma RemainsNext(table: Table, dead: set<string>, todo: set<string>, left: Table, id: string)
    requires Remains(table, dead, todo, left) && id in todo
    ensures id in left && Remains(table, dead, todo - {id}, left - {id})
  {
    assert dead - (todo - {id}) == (dead - todo) + {id};
  }

  lemma RemainsEnds(table: Table, dead: set<string>, left: Table)
    requires dead <= table.Keys
    ensures Remains(table, dead, dead, table)
    ensures Remains(table, dead, {}, left) ==> left == table - dead
  {
    assert dead - dead == {} && dead - {} == dead && table - {} == table;
  }

  lemma RunMore(ops: seq<Op>, op: Op)
    ensures Run(ops + [op]) == Next(Run(ops), op)
  {
    assert (ops + [op])[..|ops|] == ops;
  }

  lemma CleanedIsRest(table: Table, now: real)
    ensures table - (set id | id in table && !table[id].Valid(now)) == Cleaned(table, now)
  {
  }

  lemma OneLess(table: Table, id: string)
    requires id in table
    ensures |table - {id}| == |table| - 1
  {
    assert table == (table - {id})[id := table[id]];
  }

  class CapabilityDelegation {
    var tokens: Table
    var byGrantee: Index
    ghost var ops: seq<Op>

    ghost predicate Valid()
      reads this
    {
      tokens == Run(ops) && Indexed(tokens, byGrantee)
    }

    constructor ()
      ensures Valid() && ops == []
    {
      tokens, byGrantee, ops := map[], map[], [];
    }

    /** id is a fresh random id. */
    method Grant(id: string, grantee: string, capabilities: seq<string>, level: Level, ttl: real, now: real)
      returns (t: Token)
      requires Valid() && id !in tokens
      modifies this
      ensures Valid() && ops == old(ops) + [Op.Grant(id, t)]
      ensures t == Token(grantee, capabilities, level, if ttl > 0.0 then now + ttl else 0.0, false)
    {
      hide Indexed, Run;
      t := Token(grantee, capabilities, level, if ttl > 0.0 then now + ttl else 0.0, false);
      GrantKeepsIndex(tokens, byGrantee, id, t);
      RunMore(ops, Op.Grant(id, t));
      tokens := tokens[id := t];
      if grantee !in byGrantee {
        byGrantee := byGrantee[grantee := []];
      }
      byGrantee := byGrantee[grantee := byGrantee[grantee] + [id]];
      assert byGrantee == old(byGrantee)[grantee := IdsOf(old(byGrantee), grantee) + [id]];
      ops := ops + [Op.Grant(id, t)];
    }

    method Revoke(id: string) returns (found: bool)
      requires Valid()
      modifies this
      ensures Valid() && ops == old(ops) + [Op.Revoke(id)] && found == (id in old(tokens))
    {
      hide Indexed, Run;
      RunMore(ops, Op.Revoke(id));
      found := id in tokens;
      if found {
        RevokeKeepsIndex(tokens, byGrantee, id);
        tokens := tokens[id := tokens[id].(revoked := true)];
      }
      ops := ops + [Op.Revoke(id)];
    }

    /** The answer from the index is the answer from the whole table. */
    method IsAuthorized(agent: string, capability: string, least: Level, now: real) returns (ok: bool)
      requires Valid()
      ensures ok <==> Authorized(tokens, agent, capability, least, now)
      ensures ok <==> exists id ::
                && id in tokens && tokens[id].grantee == agent && !tokens[id].revoked
                && (tokens[id].expiresAt <= 0.0 || now <= tokens[id].expiresAt)
                && (capability in tokens[id].capabilities || "*" in tokens[id].capabilities)
                && (least == Watch || tokens[id].level == least || tokens[id].level == Autonomous
                    || (least == Guide && tokens[id].level == Delegate))
    {
      var ids := if agent in byGrantee then byGrantee[agent] else [];
      assert Lists(tokens, IdsOf(byGrantee, agent), agent);
      var i := 0;
      while i < |ids|
        invariant 0 <= i <= |ids|
        invariant forall j :: 0 <= j < i ==> !Lets(tokens[ids[j]], agent, capability, least, now)
      {
        var id := ids[i];
        if id in tokens && tokens[id].Valid(now) && tokens[id].Allows(capability, now)
           && tokens[id].level.Rank() >= least.Rank() {
          assert Lets(tokens[id], agent, capability, least, now);
          return true;
        }
        i := i + 1;
      }
      return false;
    }

    method GetAutonomyLevel(agent: string, now: real) returns (highest: Level)
      requires Valid()
      ensures Highest(tokens, agent, now, highest)
      ensures highest != Watch ==> exists id ::
                && id in tokens && tokens[id].grantee == agent && !tokens[id].revoked
                && (tokens[id].expiresAt <= 0.0 || now <= tokens[id].expiresAt) && tokens[id].level == highest
      ensures forall id ::
                (id in tokens && tokens[id].grantee == agent && !tokens[id].revoked
                 && (tokens[id].expiresAt <= 0.0 || now <= tokens[id].expiresAt))
                ==> (tokens[id].level == highest || tokens[id].level == Watch || highest == Autonomous
                     || (tokens[id].level == Guide && highest == Delegate))
    {
      var ids := if agent in byGrantee then byGrantee[agent] else [];
      assert Lists(tokens, IdsOf(byGrantee, agent), agent);
      highest := Watch;
      var i := 0;
      while i < |ids|
        invariant 0 <= i <= |ids|
        invariant forall j :: 0 <= j < i && tokens[ids[j]].Valid(now) ==> tokens[ids[j]].level.Rank() <= highest.Rank()
        invariant highest != Watch ==> exists id ::
          id in tokens && tokens[id].grantee == agent && tokens[id].Valid(now) && tokens[id].level == highest
      {
        var id := ids[i];
        if id in tokens && tokens[id].Valid(now) && tokens[id].level.Rank() > highest.Rank() {
          highest := tokens[id].level;
        }
        i := i + 1;
      }
    }

    /** Take a token out of the table and the index. */
    method Discard(id: string)
      requires Indexed(tokens, byGrantee) && id in tokens
      modifies this`tokens, this`byGrantee
      ensures Indexed(tokens, byGrantee) && tokens == old(tokens) - {id} && |tokens| == |old(tokens)| - 1
    {
      hide Indexed;
      DropKeepsIndex(tokens, byGrantee, id);
      OneLess(tokens, id);
      var g := tokens[id].grantee;
      tokens := tokens - {id};
      var ids := if g in byGrantee then byGrantee[g] else [];
      if id in ids {
        byGrantee := byGrantee[g := Without(ids, id)];
      }
    }

    method CleanUpExpired(now: real) returns (removed: nat)
      requires Valid()
      modifies this
      ensures Valid() && ops == old(ops) + [Op.CleanUp(now)] && tokens == Cleaned(old(tokens), now)
      ensures removed == |old(tokens)| - |tokens|
      ensures forall id :: id in tokens <==>
                && id in old(tokens) && !old(tokens)[id].revoked
                && (old(tokens)[id].expiresAt <= 0.0 || now <= old(tokens)[id].expiresAt)
    {
      hide Indexed, Run, Cleaned;
      RunMore(ops, Op.CleanUp(now));
      CleanedIsRest(tokens, now);
      removed := DiscardAll(set id | id in tokens && !tokens[id].Valid(now));
      ops := ops + [Op.CleanUp(now)];
    }

    /** The loop of CleanUpExpired. */
    method DiscardAll(dead: set<string>) returns (removed: nat)
      requires Indexed(tokens, byGrantee) && dead <= tokens.Keys
      modifies this`tokens, this`byGrantee
      ensures Indexed(tokens, byGrantee) && tokens == old(tokens) - dead && removed == |old(tokens)| - |tokens|
    {
      hide *;
      ghost var before := tokens;
      RemainsEnds(before, dead, tokens);
      var todo := dead;
      removed := 0;
      while todo != {}
        invariant Indexed(tokens, byGrantee) && Remains(before, dead, todo, tokens)
        invariant removed == |before| - |tokens|
        decreases todo
      {
        var id: string :| id in todo;
        RemainsNext(before, dead, todo, tokens, id);
        Discard(id);
        todo := todo - {id};
        removed := removed + 1;
      }
      RemainsEnds(before, dead, tokens);
    }
  }
}
