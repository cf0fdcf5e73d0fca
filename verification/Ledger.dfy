/** Who owns which keys of a shared table: the bookkeeping behind the route guards. */
module Ledger {

  /** Owns the keys it lists, each of which maps to `hop` in the table. */
  datatype Guard<K, H> = Guard(hop: H, routes: seq<K>)

  ghost predicate Distinct<K>(s: seq<K>) {
    forall i, j :: 0 <= i < j < |s| ==> s[i] != s[j]
  }

  /** `after` is `before` plus exactly the listed keys, none of which `before` had. */
  ghost predicate Extended<K, H>(before: map<K, H>, after: map<K, H>, added: seq<K>, hop: H) {
    && Distinct(added)
    && (forall r :: r in added ==> r !in before)
    && after.Keys == before.Keys + (set r | r in added)
    && (forall r :: r in before ==> after[r] == before[r])
    && (forall r :: r in added ==> after[r] == hop)
  }

  lemma LastRemoved<K, H>(before: map<K, H>, after: map<K, H>, front: seq<K>, last: K, hop: H)
    requires Extended(before, after, front + [last], hop)
    ensures last in after && after[last] == hop
    ensures Extended(before, after - {last}, front, hop)
  {
    var all := front + [last];
    assert all[|front|] == last;
    assert last in all;
    assert forall i :: 0 <= i < |front| ==> all[i] == front[i];
    forall r | r in front
      ensures r in all && r != last
    {
      var i :| 0 <= i < |front| && front[i] == r;
      assert all[i] == r;
    }
    assert (after - {last}).Keys == before.Keys + (set r | r in front);
  }

  lemma OneAdded<K, H>(before: map<K, H>, after: map<K, H>, added: seq<K>, r: K, hop: H)
    requires Extended(before, after, added, hop) && r !in after
    ensures Extended(before, after[r := hop], added + [r], hop)
  {
    assert r !in added;
    forall i, j | 0 <= i < j < |added| + 1
      ensures (added + [r])[i] != (added + [r])[j]
    {
      if j == |added| {
        assert added[i] in added;
      }
    }
  }

  ghost predicate Owned<K, H>(guards: map<nat, Guard<K, H>>, r: K) {
    exists id :: id in guards && r in guards[id].routes
  }

  ghost predicate Apart<K(!new), H>(guards: map<nat, Guard<K, H>>) {
    forall a, b, r :: a in guards && b in guards && a != b && r in guards[a].routes ==> r !in guards[b].routes
  }

  /** The table is the initial one plus exactly what the guards own: each route once, none of them the system's. */
  ghost predicate Balanced<K(!new), H>(initial: map<K, H>, guards: map<nat, Guard<K, H>>, nextId: nat, entries: map<K, H>) {
    && (forall id :: id in guards ==> id < nextId && Distinct(guards[id].routes))
    && Apart(guards)
    && (forall id, r :: id in guards && r in guards[id].routes ==>
          r !in initial && r in entries && entries[r] == guards[id].hop)
    && (forall r :: r in entries <==> r in initial || Owned(guards, r))
    && (forall r :: r in initial ==> entries[r] == initial[r])
  }

  lemma HoldKeepsBalance<K(!new), H>(initial: map<K, H>, guards: map<nat, Guard<K, H>>, n: nat, before: map<K, H>, entries: map<K, H>, g: Guard<K, H>)
    requires Balanced(initial, guards, n, before) && Extended(before, entries, g.routes, g.hop)
    ensures n !in guards && Balanced(initial, guards[n := g], n + 1, entries)
  {
    hide Distinct, Owned, Apart;
    assert n !in guards;
    OwnedMore(guards, n, g);
    StayApart(guards, n, g);
  }

  lemma StayApart<K(!new), H>(guards: map<nat, Guard<K, H>>, n: nat, g: Guard<K, H>)
    requires Apart(guards) && n !in guards
    requires forall id, r :: id in guards && r in guards[id].routes ==> r !in g.routes
    ensures Apart(guards[n := g])
  {
  }

  lemma OwnedMore<K(!new), H>(guards: map<nat, Guard<K, H>>, n: nat, g: Guard<K, H>)
    requires n !in guards
    ensures forall r :: Owned(guards[n := g], r) <==> Owned(guards, r) || r in g.routes
  {
    var more := guards[n := g];
    forall r
      ensures Owned(more, r) <==> Owned(guards, r) || r in g.routes
    {
      if r in g.routes {
        assert n in more && r in more[n].routes;
      }
      if id :| id in guards && r in guards[id].routes {
        assert id in more && r in more[id].routes;
      }
    }
  }

  lemma DropKeepsBalance<K(!new), H>(initial: map<K, H>, guards: map<nat, Guard<K, H>>, n: nat, entries: map<K, H>, id: nat)
    requires Balanced(initial, guards, n, entries) && id in guards
    ensures var rest := entries - (set r | r in guards[id].routes);
            Extended(rest, entries, guards[id].routes, guards[id].hop) && Balanced(initial, guards - {id}, n, rest)
  {
    hide Distinct, Owned;
    var g, fewer := guards[id], guards - {id};
    var rest := entries - (set r | r in g.routes);
    OwnedMore(fewer, id, g);
    assert fewer[id := g] == guards;
    NotOwnedTwice(guards, id);
    OwnedHave(initial, fewer, entries);
    assert forall r :: r in g.routes ==> r in entries;
    assert entries.Keys == rest.Keys + (set r | r in g.routes);
  }

  lemma NotOwnedTwice<K(!new), H>(guards: map<nat, Guard<K, H>>, id: nat)
    requires id in guards
    requires Apart(guards)
    ensures forall r :: Owned(guards - {id}, r) ==> r !in guards[id].routes
    ensures forall i, r :: i in guards - {id} && r in guards[i].routes ==> Owned(guards - {id}, r)
  {
    forall i, r | i in guards - {id} && r in guards[i].routes
      ensures Owned(guards - {id}, r)
    {
      assert r in (guards - {id})[i].routes;
    }
  }

  lemma OwnedHave<K(!new), H>(initial: map<K, H>, guards: map<nat, Guard<K, H>>, entries: map<K, H>)
    requires forall id, r :: id in guards && r in guards[id].routes ==> r !in initial && r in entries
    ensures forall r :: Owned(guards, r) ==> r !in initial && r in entries
  {
  }

  /** With every guard gone the table is the initial one; at no time has it lost a pre-existing route. */
  lemma NothingOwnedNothingChanged<K(!new), H>(initial: map<K, H>, guards: map<nat, Guard<K, H>>, nextId: nat, entries: map<K, H>)
    requires Balanced(initial, guards, nextId, entries)
    ensures guards == map[] ==> entries == initial
    ensures forall r :: r in initial ==> r in entries && entries[r] == initial[r]
  {
    if guards == map[] {
      assert forall r :: !Owned(guards, r);
      assert entries.Keys == initial.Keys;
    }
  }
}
