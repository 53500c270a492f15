/** The resolver (server/internal/region/resolver.go): a fixed-capacity cache over the tables, kept as a
    recency list, an index by target, an index by group, and a cache of membership answers. */
module Resolver {
  import opened Wrappers
  import opened Groups

  /** A cached answer. `known` is false for a target that does not exist. */
  datatype Entry = Entry(target: string, account: int, handle: string, kind: Kind, group: nat, mode: Mode,
                         paused: bool, known: bool)

  datatype Route = Route(account: int, handle: string, kind: Kind, group: nat, mode: Mode)

  // ---------- the uncached answer ----------

  function ModeOf(db: Db, a: int): Mode {
    if a in db.modes then db.modes[a] else All
  }

  function EntryFor(db: Db, minSize: nat, target: string, account: int, h: string): Entry
    requires h in db.handles
  {
    var row := db.handles[h];
    var tooSmall := row.kind == Group && row.group > 0 && Count(db, row.group) < minSize;
    Entry(target, account, h, row.kind, row.group, ModeOf(db, account), row.paused || tooSmall, true)
  }

  /** What the tables say about a target: an alias behind `@`, else a handle. */
  function Query(db: Db, minSize: nat, target: string): (e: Entry)
    ensures e.target == target
  {
    if target != "" && target[0] == '@' then
      var name := target[1..];
      if name in db.aliases && db.aliases[name].handle in db.handles
      then EntryFor(db, minSize, target, db.aliases[name].account, db.aliases[name].handle)
      else Entry(target, 0, "", Personal, 0, All, false, false)
    else if target in db.handles then EntryFor(db, minSize, target, db.handles[target].account, target)
    else Entry(target, 0, "", Personal, 0, All, false, false)
  }

  function VerdictOf(e: Entry): Option<Route> {
    if !e.known || e.paused || e.mode == Paused then None
    else if e.mode == GroupsOnly && e.kind != Group then None
    else Some(Route(e.account, e.handle, e.kind, e.group, e.mode))
  }

  // ---------- which targets resolve ----------

  /** The target is the handle, or an alias for it behind `@`; and that is whose it is. */
  predicate PointsTo(db: Db, target: string, h: string, account: int) {
    && h in db.handles
    && if "@" <= target
       then target[1..] in db.aliases && db.aliases[target[1..]] == AliasRow(account, h)
       else target == h && db.handles[h].account == account
  }

  /** A handle that takes pings, of an account that does: not paused, not a personal one of an account that takes group
      pings only, and of a large enough group if of any. */
  predicate RoutesTo(db: Db, minSize: nat, target: string, route: Route)
    requires target != ""
  {
    && PointsTo(db, target, route.handle, route.account)
    && var row := db.handles[route.handle];
       && !row.paused && route.kind == row.kind && route.group == row.group
       && route.mode == (if route.account in db.modes then db.modes[route.account] else All)
       && (route.mode == All || (route.mode == GroupsOnly && row.kind == Group))
       && (row.kind == Group && row.group > 0 ==> |set k | k in db.members && k.group == row.group| >= minSize)
  }

  /** Main result: the uncached answer is a route exactly when the tables lead there. */
  lemma ResolvesIff(db: Db, minSize: nat, target: string, route: Route)
    requires target != ""
    ensures VerdictOf(Query(db, minSize, target)) == Some(route) <==> RoutesTo(db, minSize, target, route)
  {
    assert "@" <= target <==> target[0] == '@';
    if RoutesTo(db, minSize, target, route) && db.handles[route.handle].group > 0 {
      assert MembersOf(db, route.group) == set k | k in db.members && k.group == route.group;
    }
  }

  // ---------- the cache as a list, most recent first ----------

  /** The entries whose target is not in `drop`. */
  function Drop(es: seq<Entry>, drop: set<string>): (r: seq<Entry>)
    ensures |r| <= |es|
  {
    if es == [] then [] else
      Drop(es[..|es| - 1], drop) + if es[|es| - 1].target in drop then [] else [es[|es| - 1]]
  }

  /** A target without its alias mark. */
  function Clean(target: string): string {
    if target != "" && target[0] == '@' then target[1..] else target
  }

  function TargetsOf(es: seq<Entry>, g: nat): set<string> {
    set e | e in es && e.group == g :: e.target
  }

  function Evicted(es: seq<Entry>, capacity: nat): seq<Entry> {
    if |es| >= capacity && es != [] then es[..|es| - 1] else es
  }

  ghost predicate Cached(es: seq<Entry>, target: string) {
    exists i :: 0 <= i < |es| && es[i].target == target
  }

  ghost predicate DistinctTargets(es: seq<Entry>) {
    forall i, j | 0 <= i < j < |es| :: es[i].target != es[j].target
  }

  /** `es'` and `v` are the cache and the verdict after resolving `target`. */
  ghost predicate Resolves(es: seq<Entry>, capacity: nat, db: Db, minSize: nat, target: string, es': seq<Entry>,
                           v: Option<Route>) {
    if target == "" then es' == es && v == None
    else if Cached(es, target) then
      exists i :: 0 <= i < |es| && es[i].target == target && es' == [es[i]] + Drop(es, {target}) &&
          v == VerdictOf(es[i])
    else es' == [Query(db, minSize, target)] + Evicted(es, capacity) && v == VerdictOf(Query(db, minSize, target))
  }

  /** `mc'` and `v` are the membership cache and the answer; a full cache loses an arbitrary entry. */
  ghost predicate Answers(mc: map<(nat, int), bool>, capacity: nat, db: Db, g: nat, a: int, mc': map<(nat, int), bool>,
                          v: bool) {
    if g == 0 then mc' == mc && !v
    else if (g, a) in mc then mc' == mc && v == mc[(g, a)]
    else v == IsMember(db, g, a) &&
         if |mc| >= capacity && mc.Keys != {} then exists k :: k in mc && mc' == (mc - {k})[(g, a) := v]
         else mc' == mc[(g, a) := v]
  }

  function ForgetGroup(mc: map<(nat, int), bool>, g: nat): map<(nat, int), bool> {
    map k | k in mc && k.0 != g :: mc[k]
  }

  lemma {:induction false} DropExact(es: seq<Entry>, drop: set<string>)
    ensures forall e :: e in Drop(es, drop) <==> e in es && e.target !in drop
  {
    if es != [] {
      var first, last := es[..|es| - 1], es[|es| - 1];
      DropExact(first, drop);
      assert es == first + [last];
      forall e ensures e in Drop(es, drop) <==> e in es && e.target !in drop {
        assert e in es <==> e in first || e == last;
        assert e in Drop(es, drop) <==> e in Drop(first, drop) || (e == last && last.target !in drop);
      }
    }
  }

  lemma {:induction false} DropDistinct(es: seq<Entry>, drop: set<string>)
    requires DistinctTargets(es)
    ensures DistinctTargets(Drop(es, drop))
  {
    if es != [] {
      var n := |es| - 1;
      var r := Drop(es[..n], drop);
      DropDistinct(es[..n], drop);
      DropExact(es[..n], drop);
      forall i | 0 <= i < |r| ensures r[i].target != es[n].target {
        assert r[i] in es[..n];
      }
    }
  }

  lemma {:induction false} DropTwice(es: seq<Entry>, a: set<string>, b: set<string>)
    ensures Drop(Drop(es, a), b) == Drop(es, a + b)
  {
    if es != [] {
      var n := |es| - 1;
      DropTwice(es[..n], a, b);
      var r := Drop(es[..n], a);
      assert r + [] == r && (r + [es[n]])[..|r|] == r;
    }
  }

  lemma {:induction false} DropNothing(es: seq<Entry>, drop: set<string>)
    requires forall e | e in es :: e.target !in drop
    ensures Drop(es, drop) == es
  {
    if es != [] {
      DropNothing(es[..|es| - 1], drop);
      assert es == es[..|es| - 1] + [es[|es| - 1]];
    }
  }

  lemma {:induction false} DropOne(es: seq<Entry>, e: Entry)
    requires DistinctTargets(es) && e in es
    ensures |Drop(es, {e.target})| == |es| - 1
  {
    var n := |es| - 1;
    if es[n] == e {
      DropNothing(es[..n], {e.target});
    } else {
      DropOne(es[..n], e);
    }
  }

  // ---------- the indexes ----------

  function Slice(items: map<string, Entry>, g: nat): map<string, Entry> {
    map t | t in items && items[t].group == g :: items[t]
  }

  /** The items outside a group. */
  function Others(items: map<string, Entry>, g: nat): map<string, Entry> {
    items - Slice(items, g).Keys
  }

  ghost function GroupsIn(items: map<string, Entry>): set<nat> {
    set t | t in items && items[t].group > 0 :: items[t].group
  }

  /** The index by group: exactly the entries with a group identifier. */
  ghost predicate Indexes(groupItems: map<nat, map<string, Entry>>, items: map<string, Entry>) {
    groupItems.Keys == GroupsIn(items) && forall g | g in groupItems :: groupItems[g] == Slice(items, g)
  }

  /** The index by target holds exactly the listed entries, which are distinct. */
  ghost predicate ListMatches(list: seq<Entry>, items: map<string, Entry>) {
    DistinctTargets(list) && |list| == |items| && SameEntries(list, items)
  }

  lemma ListMatchesDrop(list: seq<Entry>, items: map<string, Entry>, t: string)
    requires ListMatches(list, items) && t in items
    ensures ListMatches(Drop(list, {t}), items - {t})
  {
    DropExact(list, {t});
    DropDistinct(list, {t});
    DropOne(list, items[t]);
    assert (items - {t}).Keys == items.Keys - {t};
    assert |items.Keys - {t}| == |items.Keys| - 1;
  }

  lemma SliceDrop(items: map<string, Entry>, t: string, g: nat)
    requires t in items
    ensures Slice(items - {t}, g) == Slice(items, g) - {t}
    ensures items[t].group != g ==> Slice(items - {t}, g) == Slice(items, g)
  {
  }

  lemma SliceAdd(items: map<string, Entry>, e: Entry, g: nat)
    requires e.target !in items
    ensures Slice(items[e.target := e], g) == if e.group == g then Slice(items, g)[e.target := e] else Slice(items, g)
  {
  }

  lemma GroupsAre(items: map<string, Entry>, g: nat)
    ensures g in GroupsIn(items) <==> g > 0 && Slice(items, g) != map[]
  {
    if g in GroupsIn(items) {
      var u :| u in items && items[u].group == g && g > 0;
      assert u in Slice(items, g);
    }
    if g > 0 && Slice(items, g) != map[] {
      var u :| u in Slice(items, g);
      assert items[u].group in GroupsIn(items);
    }
  }

  /** The index by group after one entry is gone. */
  lemma IndexesDrop(groupItems: map<nat, map<string, Entry>>, items: map<string, Entry>, t: string,
                    now: map<nat, map<string, Entry>>)
    requires Indexes(groupItems, items) && t in items
    requires var g := items[t].group;
             if g == 0 then now == groupItems
             else g in groupItems && now == if groupItems[g] - {t} == map[] then groupItems - {g}
                 else groupItems[g := groupItems[g] - {t}]
    ensures Indexes(now, items - {t})
  {
    var g, rest := items[t].group, items - {t};
    forall f ensures f in now <==> f in GroupsIn(rest) {
      GroupsAre(items, f);
      GroupsAre(rest, f);
      SliceDrop(items, t, f);
    }
    hide GroupsIn, Slice;
    forall f | f in now ensures now[f] == Slice(rest, f) { SliceDrop(items, t, f); }
  }

  /** The index by group after one entry is added. */
  lemma IndexesAdd(groupItems: map<nat, map<string, Entry>>, items: map<string, Entry>, e: Entry,
                   now: map<nat, map<string, Entry>>)
    requires Indexes(groupItems, items) && e.target !in items
    requires var g := e.group;
             if g == 0 then now == groupItems
             else now == groupItems[g := (if g in groupItems then groupItems[g] else map[])[e.target := e]]
    ensures Indexes(now, items[e.target := e])
  {
    hide GroupsIn, Slice;
    var g, more := e.group, items[e.target := e];
    forall f ensures f in now <==> f in GroupsIn(more) {
      GroupsAre(items, f);
      GroupsAre(more, f);
      SliceAdd(items, e, f);
      assert f == g ==> e.target in Slice(more, f);
    }
    forall f | f in now ensures now[f] == Slice(more, f) {
      GroupsAre(items, f);
      SliceAdd(items, e, f);
    }
  }

  lemma GroupIsIndexed(groupItems: map<nat, map<string, Entry>>, items: map<string, Entry>, t: string)
    requires Indexes(groupItems, items) && t in items && items[t].group > 0
    ensures items[t].group in groupItems
  {
  }

  ghost predicate Fits(mc: map<(nat, int), bool>, capacity: nat) {
    |mc| <= capacity
  }

  // ---------- the resolver ----------

  class Resolver {
    const capacity: nat
    const minGroupSize: nat
    var evictList: seq<Entry>
    var items: map<string, Entry>
    var groupItems: map<nat, map<string, Entry>>
    var memberCache: map<(nat, int), bool>

    ghost predicate Valid()
      reads this
    {
      capacity > 0 && |evictList| <= capacity && Fits(memberCache, capacity) &&
      ListMatches(evictList, items) && Indexes(groupItems, items)
    }

    constructor (capacity: int, minSize: nat)
      ensures Valid() && evictList == [] && memberCache == map[]
      ensures this.capacity == (if capacity <= 0 then 10000 else capacity)
      ensures minGroupSize == (if minSize >= 2 then minSize else 5)
    {
      this.capacity := if capacity <= 0 then 10000 else capacity;
      minGroupSize := if minSize >= 2 then minSize else 5;
      evictList := [];
      items := map[];
      groupItems := map[];
      memberCache := map[];
    }

    /** Takes one cached entry out of the list and both indexes. */
    method RemoveElement(e: Entry)
      requires Valid() && e in evictList
      modifies this`evictList, this`items, this`groupItems
      ensures Valid()
      ensures evictList == Drop(old(evictList), {e.target}) && |evictList| == |old(evictList)| - 1
    {
      hide Indexes, ListMatches, Fits, Drop;
      ElementDropped(evictList, items, e);
      ghost var before := items;
      evictList := Drop(evictList, {e.target});
      items := items - {e.target};
      Unindex(e, before);
    }

    /** Takes an entry out of its group's slice, and a slice left empty out of the index. */
    method Unindex(e: Entry, ghost before: map<string, Entry>)
      requires Indexes(groupItems, before) && e.target in before && before[e.target] == e
      modifies this`groupItems
      ensures Indexes(groupItems, before - {e.target})
    {
      if e.group > 0 { GroupIsIndexed(groupItems, before, e.target); }
      ghost var groups := groupItems;
      hide Indexes;
      if e.group > 0 {
        if e.group in groupItems {
          var gMap := groupItems[e.group] - {e.target};
          groupItems := if gMap == map[] then groupItems - {e.group} else groupItems[e.group := gMap];
        }
      }
      IndexesDrop(groups, before, e.target, groupItems);
    }

    method Invalidate(target: string)
      requires Valid()
      modifies this`evictList, this`items, this`groupItems
      ensures Valid()
      ensures evictList == Drop(old(evictList), {Clean(target), "@" + Clean(target)})
    {
      hide ListMatches, Indexes;
      var clean := Clean(target);
      ghost var start := evictList;
      InvalidateOne(clean);
      InvalidateOne("@" + clean);
      DropTwice(start, {clean}, {"@" + clean});
      assert {clean} + {"@" + clean} == {clean, "@" + clean};
    }

    method InvalidateOne(target: string)
      requires Valid()
      modifies this`evictList, this`items, this`groupItems
      ensures Valid() && evictList == Drop(old(evictList), {target})
    {
      if target in items {
        RemoveElement(items[target]);
      } else {
        DropNothing(evictList, {target});
      }
    }

    /** Forgets every cached target and every membership answer of one group. */
    method InvalidateGroup(g: nat)
      requires Valid() && g > 0
      modifies this`evictList, this`items, this`groupItems, this`memberCache
      ensures Valid()
      ensures evictList == Drop(old(evictList), TargetsOf(old(evictList), g))
      ensures memberCache == ForgetGroup(old(memberCache), g)
    {
      hide ListMatches, Indexes, Slice, TargetsOf, Drop, ForgetGroup, Fits;
      ForgetTargets(g);
      ForgetMembers(g);
    }

    method ForgetTargets(g: nat)
      requires Valid() && g > 0
      modifies this`evictList, this`items, this`groupItems
      ensures Valid()
      ensures evictList == Drop(old(evictList), TargetsOf(old(evictList), g))
    {
      hide ListMatches, Indexes, Slice, TargetsOf, Drop, Fits;
      if g in groupItems {
        ForgetSlice(g);
      } else {
        SliceTargets(evictList, items, groupItems, g);
      }
    }

    method ForgetSlice(g: nat)
      requires ListMatches(evictList, items) && Indexes(groupItems, items) && g > 0 && g in groupItems
      modifies this`evictList, this`items, this`groupItems
      ensures ListMatches(evictList, items) && Indexes(groupItems, items)
      ensures evictList == Drop(old(evictList), TargetsOf(old(evictList), g))
    {
      SliceTargets(evictList, items, groupItems, g);
      IndexesDropGroup(groupItems, items, g);
      hide ListMatches, Indexes, Slice, TargetsOf, Drop, GroupsIn, Others;
      InvalidateSlice(groupItems[g], g);
      groupItems := groupItems - {g};
    }

    /** Removes the elements of one slice from the list and the index by target; the index by group still
        holds the slice. */
    method InvalidateSlice(gMap: map<string, Entry>, ghost g: nat)
      requires ListMatches(evictList, items) && gMap == Slice(items, g)
      modifies this`evictList, this`items
      ensures ListMatches(evictList, items)
      ensures evictList == Drop(old(evictList), gMap.Keys)
      ensures items == Others(old(items), g)
    {
      hide ListMatches, Drop;
      var rest := gMap.Keys;
      ghost var list, all := evictList, items;
      DropEmpty(list);
      assert gMap.Keys - rest == {} && all - (gMap.Keys - rest) == all;
      while rest != {}
        invariant rest <= gMap.Keys
        invariant ListMatches(evictList, items)
        invariant evictList == Drop(list, gMap.Keys - rest)
        invariant items == all - (gMap.Keys - rest)
        decreases rest
      {
        var t :| t in rest;
        SliceHasTargets(list, all, g, t);
        ListMatchesDrop(evictList, items, t);
        DropTwice(list, gMap.Keys - rest, {t});
        assert gMap.Keys - rest + {t} == gMap.Keys - (rest - {t});
        evictList := Drop(evictList, {gMap[t].target});
        items := items - {gMap[t].target};
        rest := rest - {t};
      }
      assert gMap.Keys - rest == gMap.Keys;
    }

    method ForgetMembers(g: nat)
      requires Fits(memberCache, capacity)
      modifies this`memberCache
      ensures memberCache == ForgetGroup(old(memberCache), g) && Fits(memberCache, capacity)
    {
      var keys := memberCache.Keys;
      while keys != {}
        invariant keys <= old(memberCache).Keys && |memberCache| <= capacity
        invariant forall k :: k in memberCache <==> k in old(memberCache) && (k in keys || k.0 != g)
        invariant forall k | k in memberCache :: memberCache[k] == old(memberCache)[k]
        decreases keys
      {
        var k :| k in keys;
        keys := keys - {k};
        if k.0 == g {
          MapShrinks(memberCache, k);
          memberCache := memberCache - {k};
        }
      }
    }

    /** The cached verdict, or the tables' verdict cached for the next time. */
    method ResolveDetailed(db: Db, target: string) returns (v: Option<Route>)
      requires Valid()
      modifies this`evictList, this`items, this`groupItems
      ensures Valid()
      ensures Resolves(old(evictList), capacity, db, minGroupSize, target, evictList, v)
      ensures target != "" && target !in old(items) ==>
                forall route :: v == Some(route) <==> RoutesTo(db, minGroupSize, target, route)
    {
      hide Query, VerdictOf, Drop, Fits, RoutesTo;
      if target == "" {
        return None;
      }
      forall route
        ensures VerdictOf(Query(db, minGroupSize, target)) == Some(route) <==> RoutesTo(db, minGroupSize, target, route)
      {
        ResolvesIff(db, minGroupSize, target, route);
      }
      CachedIsIndexed(evictList, items, target);
      hide ListMatches, Indexes;
      if target in items {
        var e := items[target];
        MoveToFront(e);
        return VerdictOf(e);
      }
      var e := Query(db, minGroupSize, target);
      MakeRoom(target);
      PushFront(e);
      v := VerdictOf(e);
    }

    /** Evicts the least recently used entry of a full cache. */
    method MakeRoom(ghost target: string)
      requires Valid() && target !in items
      modifies this`evictList, this`items, this`groupItems
      ensures Valid() && |evictList| < capacity && target !in items
      ensures evictList == Evicted(old(evictList), capacity)
    {
      hide Drop, Fits, Indexes;
      if |items| >= capacity {
        LastDropped(evictList);
        DropExact(evictList, {evictList[|evictList| - 1].target});
        CachedIsIndexed(evictList, items, target);
        RemoveElement(evictList[|evictList| - 1]);
        CachedIsIndexed(evictList, items, target);
      }
    }

    method MoveToFront(e: Entry)
      requires Valid() && e.target in items && items[e.target] == e
      modifies this`evictList
      ensures Valid() && evictList == [e] + Drop(old(evictList), {e.target})
    {
      DropExact(evictList, {e.target});
      DropDistinct(evictList, {e.target});
      DropOne(evictList, e);
      hide Drop;
      evictList := [e] + Drop(evictList, {e.target});
    }

    method PushFront(e: Entry)
      requires Valid() && |evictList| < capacity && e.target !in items
      modifies this`evictList, this`items, this`groupItems
      ensures Valid() && evictList == [e] + old(evictList)
    {
      ghost var wasItems, wasGroups := items, groupItems;
      ListMatchesAdd(evictList, items, e);
      hide Indexes, ListMatches, Fits;
      evictList := [e] + evictList;
      items := items[e.target := e];
      if e.group > 0 {
        var gMap := if e.group in groupItems then groupItems[e.group] else map[];
        groupItems := groupItems[e.group := gMap[e.target := e]];
      }
      IndexesAdd(wasGroups, wasItems, e, groupItems);
    }

    /** Whether the account is in the group, from the membership cache or the tables. */
    method IsGroupMember(db: Db, g: nat, a: int) returns (v: bool)
      requires Valid()
      modifies this`memberCache
      ensures Valid()
      ensures Answers(old(memberCache), capacity, db, g, a, memberCache, v)
    {
      hide ListMatches, Indexes;
      if g == 0 {
        return false;
      }
      if (g, a) in memberCache {
        return memberCache[(g, a)];
      }
      if k :| k in db.members && k.group == g && db.members[k].account == a {
        v := true;
      } else {
        v := false;
      }
      if |memberCache| >= capacity {
        assert memberCache.Keys != {} by { assert |memberCache.Keys| > 0; }
        var k :| k in memberCache;
        MapShrinks(memberCache, k);
        memberCache := memberCache - {k};
      }
      MapGrows(memberCache, (g, a), v);
      memberCache := memberCache[(g, a) := v];
    }
  }

  lemma CachedEntry(list: seq<Entry>, items: map<string, Entry>, e: Entry)
    requires ListMatches(list, items) && e in list
    ensures e.target in items && items[e.target] == e && DistinctTargets(list)
  {
    hide DistinctTargets;
  }

  lemma ElementDropped(list: seq<Entry>, items: map<string, Entry>, e: Entry)
    requires ListMatches(list, items) && e in list
    ensures e.target in items && items[e.target] == e
    ensures ListMatches(Drop(list, {e.target}), items - {e.target}) && |Drop(list, {e.target})| == |list| - 1
  {
    CachedEntry(list, items, e);
    hide ListMatches, Drop, DistinctTargets;
    ListMatchesDrop(list, items, e.target);
    DropOne(list, e);
  }

  lemma MapShrinks<K, V>(m: map<K, V>, k: K)
    requires k in m
    ensures |m - {k}| == |m| - 1
  {
    assert (m - {k}).Keys == m.Keys - {k};
  }

  lemma MapGrows<K, V>(m: map<K, V>, k: K, v: V)
    ensures |m[k := v]| <= |m| + 1
  {
    assert m[k := v].Keys == m.Keys + {k};
  }

  lemma DropEmpty(es: seq<Entry>)
    ensures Drop(es, {}) == es
  {
    DropNothing(es, {});
  }

  lemma CachedIsIndexed(list: seq<Entry>, items: map<string, Entry>, target: string)
    requires ListMatches(list, items)
    ensures Cached(list, target) <==> target in items
    ensures target in items ==> exists i :: 0 <= i < |list| && list[i].target == target && list[i] == items[target]
  {
    if i :| 0 <= i < |list| && list[i].target == target { assert list[i] in list; }
    if target in items {
      var i :| 0 <= i < |list| && list[i] == items[target];
      assert list[i].target == target;
    }
  }

  lemma LastDropped(es: seq<Entry>)
    requires es != [] && DistinctTargets(es)
    ensures Drop(es, {es[|es| - 1].target}) == es[..|es| - 1]
  {
    DropNothing(es[..|es| - 1], {es[|es| - 1].target});
  }

  lemma ListMatchesAdd(list: seq<Entry>, items: map<string, Entry>, e: Entry)
    requires ListMatches(list, items) && e.target !in items
    ensures ListMatches([e] + list, items[e.target := e])
  {
    DistinctAdd(list, e);
    NewKeyGrows(items, e.target, e);
    ListedAdd(list, items, e);
    hide DistinctTargets;
  }

  lemma NewKeyGrows<K, V>(m: map<K, V>, k: K, v: V)
    requires k !in m
    ensures |m[k := v]| == |m| + 1
  {
    assert m[k := v].Keys == m.Keys + {k};
  }

  /** The list and the map hold the same entries. */
  ghost predicate SameEntries(list: seq<Entry>, items: map<string, Entry>) {
    && (forall e | e in list :: e.target in items && items[e.target] == e)
    && (forall t | t in items :: items[t] in list && items[t].target == t)
  }

  lemma ListedAdd(list: seq<Entry>, items: map<string, Entry>, e: Entry)
    requires SameEntries(list, items) && e.target !in items
    ensures SameEntries([e] + list, items[e.target := e])
  {
    var l, m := [e] + list, items[e.target := e];
    assert forall f :: f in l <==> f == e || f in list;
  }

  lemma DistinctAdd(list: seq<Entry>, e: Entry)
    requires DistinctTargets(list) && forall f | f in list :: f.target != e.target
    ensures DistinctTargets([e] + list)
  {
    var l := [e] + list;
    assert forall i | 0 < i < |l| :: l[i] == list[i - 1] && l[i] in list;
  }

  lemma SliceHasTargets(list: seq<Entry>, items: map<string, Entry>, g: nat, t: string)
    requires ListMatches(list, items) && t in Slice(items, g)
    ensures t in items && items[t].target == t && items[t].group == g
  {
  }

  lemma SliceWithout(items: map<string, Entry>, g: nat, f: nat)
    ensures Slice(Others(items, g), f) == if f == g then map[] else Slice(items, f)
  {
  }

  lemma IndexesDropGroup(groupItems: map<nat, map<string, Entry>>, items: map<string, Entry>, g: nat)
    requires Indexes(groupItems, items)
    ensures Indexes(groupItems - {g}, Others(items, g))
    ensures g in groupItems ==> groupItems[g] == Slice(items, g)
    ensures g !in groupItems && g > 0 ==> Slice(items, g) == map[]
  {
    hide Slice, GroupsIn, Others;
    GroupsAre(items, g);
    var rest := Others(items, g);
    forall f ensures f in GroupsIn(rest) <==> f in GroupsIn(items) && f != g {
      GroupsAre(items, f);
      GroupsAre(rest, f);
      SliceWithout(items, g, f);
    }
    forall f | f in groupItems && f != g ensures groupItems[f] == Slice(rest, f) { SliceWithout(items, g, f); }
  }

  /** The slice of a group has the targets of the listed entries of that group. */
  lemma SliceTargets(list: seq<Entry>, items: map<string, Entry>, groupItems: map<nat, map<string, Entry>>, g: nat)
    requires ListMatches(list, items) && Indexes(groupItems, items) && g > 0
    ensures Slice(items, g).Keys == TargetsOf(list, g)
    ensures g !in groupItems ==> Drop(list, TargetsOf(list, g)) == list
  {
    hide Drop, DistinctTargets;
    GroupsAre(items, g);
    forall t ensures t in Slice(items, g) <==> t in TargetsOf(list, g) {
      if t in Slice(items, g) {
        assert items[t] in list;
      }
      if t in TargetsOf(list, g) {
        var e :| e in list && e.group == g && e.target == t;
      }
    }
    if g !in groupItems {
      assert TargetsOf(list, g) == {};
      DropEmpty(list);
    }
  }
}
