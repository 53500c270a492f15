/** The request handlers of server/internal/http/groups.go and server/internal/http/ping.go as methods on
    the store and the resolver, each shown to be a step of the machine in GroupPing. */
module GroupServer {
  import opened Wrappers
  import opened Groups
  import opened GroupPing
  import R = Resolver

  class Server {
    const store: GroupStore
    const resolver: R.Resolver
    const maxPerAccount: nat
    const maxMembers: nat

    constructor (store: GroupStore, resolver: R.Resolver, maxPerAccount: nat, maxMembers: nat)
      requires resolver.Valid() && Inv(store.db) && resolver.evictList == [] && resolver.memberCache == map[]
      ensures Valid() && this.store == store && this.resolver == resolver
    {
      this.store := store;
      this.resolver := resolver;
      this.maxPerAccount := maxPerAccount;
      this.maxMembers := maxMembers;
    }

    ghost function View(): State
      reads store, resolver
    {
      State(store.db, resolver.evictList, resolver.memberCache)
    }

    ghost function Cfg(): Config {
      Config(resolver.capacity, resolver.minGroupSize, maxPerAccount, maxMembers)
    }

    ghost predicate Valid()
      reads store, resolver
    {
      resolver.Valid() && StateInv(View(), Cfg())
    }

    method CreateGroup(a: int, name: string, invite: string, display: string, handle: string, today: int, newId: nat)
      returns (r: Result<nat, GroupError>)
      requires Valid() && newId > 0 && newId !in store.db.groups
      modifies store, resolver
      ensures Valid() && Step(old(View()), Cfg(), Create(a, name, invite, display, handle, today, r), View())
    {
      hide StateInv, CreateTx, Inv;
      assert Inv(store.db) by { InvOf(View(), Cfg()); }
      r := store.Create(a, name, invite, display, handle, today, maxPerAccount, newId);
      EndpointKeepsInv(old(View()), Cfg(), Create(a, name, invite, display, handle, today, r), View());
    }

    method JoinGroup(a: int, invite: string, display: string, handle: string, today: int)
        returns (r: Result<nat, GroupError>)
      requires Valid()
      modifies store, resolver
      ensures Valid() && Step(old(View()), Cfg(), Join(a, invite, display, handle, today, r), View())
    {
      hide StateInv, JoinTx, Inv, R.Drop;
      InvOf(View(), Cfg());
      r := store.Join(a, invite, display, handle, today, maxPerAccount, maxMembers);
      if r.Success? {
        JoinTxKeepsInv(old(store.db), a, invite, display, handle, today, maxPerAccount, maxMembers, r, store.db);
        GroupIdsArePositive(old(store.db));
        NothingBurned(resolver.evictList);
        resolver.InvalidateGroup(r.value);
      }
      EndpointKeepsInv(old(View()), Cfg(), Join(a, invite, display, handle, today, r), View());
    }

    method LeaveGroup(g: nat, a: int) returns (r: Result<string, GroupError>)
      requires Valid() && g > 0
      modifies store, resolver
      ensures Valid() && Step(old(View()), Cfg(), Leave(g, a, r), View())
    {
      hide StateInv, LeaveTx, Inv, Flush, R.ForgetGroup;
      r := store.Leave(g, a);
      if r.Success? {
        EvictOne(r.value, g);
      }
      EndpointKeepsInv(old(View()), Cfg(), Leave(g, a, r), View());
    }

    method RemoveMember(g: nat, a: int, param: string) returns (r: Result<string, GroupError>)
      requires Valid() && g > 0
      modifies store, resolver
      ensures Valid() && Step(old(View()), Cfg(), Remove(g, a, param, r), View())
    {
      hide StateInv, RemoveTx, Inv, Flush, R.ForgetGroup;
      InvOf(View(), Cfg());
      r := store.Remove(g, a, param);
      if r.Success? {
        EvictOne(r.value, g);
      }
      EndpointKeepsInv(old(View()), Cfg(), Remove(g, a, param, r), View());
    }

    method UpdateGroup(g: nat, a: int, req: UpdateRequest) returns (r: Result<(), GroupError>)
      requires Valid()
      modifies store
      ensures Valid() && Step(old(View()), Cfg(), Update(g, a, req, r), View())
    {
      hide StateInv, UpdateTx, Inv;
      InvOf(View(), Cfg());
      r := store.Update(g, a, req);
      EndpointKeepsInv(old(View()), Cfg(), Update(g, a, req, r), View());
    }

    method RotateInvite(g: nat, a: int, invite: string) returns (r: Result<(), GroupError>)
      requires Valid()
      modifies store
      ensures Valid() && Step(old(View()), Cfg(), Rotate(g, a, invite, r), View())
    {
      hide StateInv, RotateTx, Inv;
      InvOf(View(), Cfg());
      r := store.Rotate(g, a, invite);
      EndpointKeepsInv(old(View()), Cfg(), Rotate(g, a, invite, r), View());
    }

    method DeleteGroup(g: nat, a: int) returns (r: Result<(), GroupError>)
      requires Valid() && g > 0
      modifies store, resolver
      ensures Valid() && Step(old(View()), Cfg(), Delete(g, a, r), View())
    {
      hide StateInv, DeleteTx, Inv, Flush, R.ForgetGroup, GroupHandles;
      var burnedHandles := GroupHandles(store.db, g);
      r := store.Delete(g, a);
      if r.Success? {
        EvictAll(burnedHandles, g);
      }
      EndpointKeepsInv(old(View()), Cfg(), Delete(g, a, r), View());
    }

    /** The handle's own entries, then the group's. */
    method EvictOne(h: string, g: nat)
      requires resolver.Valid() && g > 0
      modifies resolver
      ensures resolver.Valid() && resolver.evictList == Flush(old(resolver.evictList), {h}, g)
      ensures resolver.memberCache == R.ForgetGroup(old(resolver.memberCache), g)
    {
      hide R.Drop;
      BurnOne(h);
      resolver.InvalidateGroup(g);
    }

    method EvictAll(burned: set<string>, g: nat)
      requires resolver.Valid() && g > 0
      modifies resolver
      ensures resolver.Valid() && resolver.evictList == Flush(old(resolver.evictList), burned, g)
      ensures resolver.memberCache == R.ForgetGroup(old(resolver.memberCache), g)
    {
      hide R.Drop;
      BurnAll(burned);
      resolver.InvalidateGroup(g);
    }

    method BurnOne(h: string)
      requires resolver.Valid()
      modifies resolver`evictList, resolver`items, resolver`groupItems
      ensures resolver.Valid()
      ensures resolver.evictList == R.Drop(old(resolver.evictList), Spellings({h}))
    {
      assert {R.Clean(h), "@" + R.Clean(h)} == Spellings({h});
      resolver.Invalidate(h);
    }

    method BurnAll(burned: set<string>)
      requires resolver.Valid()
      modifies resolver`evictList, resolver`items, resolver`groupItems
      ensures resolver.Valid()
      ensures resolver.evictList == R.Drop(old(resolver.evictList), Spellings(burned))
    {
      hide R.Drop;
      var rest := burned;
      NothingBurned(resolver.evictList);
      assert burned - rest == {};
      while rest != {}
        invariant rest <= burned && resolver.Valid()
        invariant resolver.evictList == R.Drop(old(resolver.evictList), Spellings(burned - rest))
        decreases rest
      {
        var h :| h in rest;
        R.DropTwice(old(resolver.evictList), Spellings(burned - rest), Spellings({h}));
        SpellingsAdd(burned - rest, {h});
        BurnOne(h);
        assert burned - rest + {h} == burned - (rest - {h});
        rest := rest - {h};
      }
      assert burned - rest == burned;
    }

    /** The ping path: proof of work, resolution, membership, guard, queue. Whether the first and the last
        two pass is given. */
    method SendPing(sender: int, target: string, powOk: bool, guardAllows: bool, queueHasRoom: bool)
      returns (enqueued: Option<R.Route>)
      requires Valid()
      modifies resolver
      ensures Valid()
      ensures Step(old(View()), Cfg(), Ping(sender, target, powOk, guardAllows, queueHasRoom, enqueued), View())
      ensures enqueued.Some? ==>
                powOk && guardAllows && queueHasRoom && target != "" &&
                R.RoutesTo(store.db, resolver.minGroupSize, target, enqueued.value)
      ensures enqueued.Some? && enqueued.value.group > 0 ==>
                Count(store.db, enqueued.value.group) >= resolver.minGroupSize &&
                IsMember(store.db, enqueued.value.group, sender)
    {
      hide StateInv, Count, IsMember, PingStep, R.Query, R.VerdictOf, R.RoutesTo;
      enqueued := Decide(sender, target, powOk, guardAllows, queueHasRoom);
      PingIsSafe(old(View()), Cfg(), Ping(sender, target, powOk, guardAllows, queueHasRoom, enqueued), View());
    }

    method Decide(sender: int, target: string, powOk: bool, guardAllows: bool, queueHasRoom: bool)
      returns (enqueued: Option<R.Route>)
      requires resolver.Valid()
      modifies resolver
      ensures resolver.Valid()
      ensures PingStep(old(View()), Cfg(), sender, target, powOk, guardAllows, queueHasRoom, enqueued, View())
    {
      hide R.Resolves, R.Answers;
      if !powOk {
        return None;
      }
      var v := resolver.ResolveDetailed(store.db, target);
      ghost var passes := guardAllows && queueHasRoom;
      if v.None? {
        assert PingRoute(old(View()), Cfg(), sender, v, passes, None, View());
        return None;
      }
      if v.value.kind == Group && v.value.group > 0 {
        var ok := resolver.IsGroupMember(store.db, v.value.group, sender);
        if !ok {
          assert PingRoute(old(View()), Cfg(), sender, v, passes, None, View());
          return None;
        }
      }
      enqueued := if guardAllows && queueHasRoom then v else None;
      assert PingRoute(old(View()), Cfg(), sender, v, passes, enqueued, View());
    }
  }

  lemma InvOf(s: State, c: Config)
    requires StateInv(s, c)
    ensures Inv(s.db)
  {
  }

  lemma NothingBurned(cache: seq<R.Entry>)
    ensures Spellings({}) == {} && R.Drop(cache, Spellings({})) == cache
  {
    R.DropEmpty(cache);
    assert Spellings({}) == {};
  }

  lemma SpellingsAdd(a: set<string>, b: set<string>)
    ensures Spellings(a + b) == Spellings(a) + Spellings(b)
  {
  }
}
