/** The guard's decision on one ping: suspension, blocks, token buckets, the group cap, the pair cascade, and the
    record of heaviest senders. */
module GuardService {
  import opened BloomFilter
  import opened BoundedBuckets
  import opened CountMinSketch
  import opened GroupSpread
  import opened PairCascade
  import opened TokenBucket
  import opened Wrappers

  datatype Kind = Personal | Social | GroupHandle | Stream

  datatype TopRecord = TopRecord(sender: int, count: nat)

  // ---------- a sender under both buckets ----------

  /** One decision, with its uses of the sender's hourly and daily bucket and of the target's. */
  datatype Tick = Tick(sender: int, allowed: bool, hour: Use<int>, day: Use<int>, target: Use<string>)

  predicate Took<K>(u: Use<K>) {
    u.Use? && u.ok
  }

  /** Each bucket is asked exactly if the one before admits, and an allowed call passed all three. */
  predicate GoodTick(t: Tick) {
    && (t.hour.Use? ==> t.hour.key == t.sender)
    && (t.day.Use? ==> t.day.key == t.sender)
    && (t.day.Use? <==> Took(t.hour))
    && (t.target.Use? <==> Took(t.day))
    && (t.allowed ==> Took(t.target))
  }

  function HourUses(ticks: seq<Tick>): (uses: seq<Use<int>>)
    ensures |uses| == |ticks|
  {
    seq(|ticks|, k requires 0 <= k < |ticks| => ticks[k].hour)
  }

  function DayUses(ticks: seq<Tick>): (uses: seq<Use<int>>)
    ensures |uses| == |ticks|
  {
    seq(|ticks|, k requires 0 <= k < |ticks| => ticks[k].day)
  }

  function Allowed(ticks: seq<Tick>, sender: int): nat {
    if ticks == [] then 0
    else
      var t := ticks[|ticks| - 1];
      Allowed(ticks[..|ticks| - 1], sender) + (if t.sender == sender && t.allowed then 1 else 0)
  }

  lemma {:induction false} AllowedWasAdmitted(ticks: seq<Tick>, sender: int)
    requires forall k | 0 <= k < |ticks| :: GoodTick(ticks[k])
    ensures Allowed(ticks, sender) <= Admitted(HourUses(ticks), sender)
    ensures Allowed(ticks, sender) <= Admitted(DayUses(ticks), sender)
  {
    if ticks != [] {
      var n := |ticks| - 1;
      AllowedWasAdmitted(ticks[..n], sender);
      assert HourUses(ticks)[..n] == HourUses(ticks[..n]) && DayUses(ticks)[..n] == DayUses(ticks[..n]);
      assert GoodTick(ticks[n]);
    }
  }

  /** While a sender's buckets are not evicted, any stretch of any run allows it at most what the hourly and what
      the daily bucket allow, at once. */
  lemma SenderIsBounded(hours: seq<map<int, Bucket>>, days: seq<map<int, Bucket>>, ticks: seq<Tick>, times: seq<real>,
                        hourly: Plan, daily: Plan, sender: int, i: nat, j: nat, t1: real, t2: real)
    requires Run(hours, HourUses(ticks), times, hourly) && Run(days, DayUses(ticks), times, daily)
    requires forall k | 0 <= k < |ticks| :: GoodTick(ticks[k])
    requires i <= j <= |ticks| && KeptBetween(hours, sender, i, j) && KeptBetween(days, sender, i, j)
    requires t1 <= t2 && forall k | i < k <= j :: t1 <= times[k] <= t2
    ensures Allowed(ticks[i..j], sender) as real <=
        hourly.limit as real + Inflow(t2 - t1, Rate(hourly.limit, hourly.period))
    ensures Allowed(ticks[i..j], sender) as real <=
        daily.limit as real + Inflow(t2 - t1, Rate(daily.limit, daily.period))
  {
    hide Rate, Inflow, Used, AllBuckets;
    KeptKeyIsBounded(hours, HourUses(ticks), times, hourly, sender, i, j, t1, t2);
    KeptKeyIsBounded(days, DayUses(ticks), times, daily, sender, i, j, t1, t2);
    AllowedWasAdmitted(ticks[i..j], sender);
    assert HourUses(ticks)[i..j] == HourUses(ticks[i..j]) && DayUses(ticks)[i..j] == DayUses(ticks[i..j]);
  }

  /** The decisions of a service so far, when they were asked for, and its sender buckets between them. */
  datatype Trace = Trace(ticks: seq<Tick>, calls: seq<real>, hours: seq<map<int, Bucket>>, days: seq<map<int, Bucket>>)

  ghost predicate TracesTo(t: Trace, hourly: Plan, daily: Plan, hours: map<int, Bucket>, days: map<int, Bucket>) {
    && hourly.Valid() && daily.Valid() && |t.calls| == |t.ticks|
    && Linked(t.hours, HourUses(t.ticks), t.calls, hourly, hours)
    && Linked(t.days, DayUses(t.ticks), t.calls, daily, days)
    && forall k | 0 <= k < |t.ticks| :: GoodTick(t.ticks[k])
  }

  /** From no bucket to `last`, each map is what the use before it leads to. */
  ghost predicate Linked(maps: seq<map<int, Bucket>>, uses: seq<Use<int>>, calls: seq<real>, p: Plan,
                         last: map<int, Bucket>)
    requires p.Valid() && |calls| == |uses|
  {
    && |maps| == |uses| + 1 && maps[0] == map[] && maps[|uses|] == last
    && forall k | 0 <= k < |uses| :: Clock(uses[k], calls[k]) == calls[k] && Used(maps[k], uses[k], p, maps[k + 1])
  }

  lemma LinkedGrows(maps: seq<map<int, Bucket>>, uses: seq<Use<int>>, calls: seq<real>, p: Plan, last: map<int, Bucket>,
                    u: Use<int>, now: real, next: map<int, Bucket>)
    requires p.Valid() && |calls| == |uses| && Linked(maps, uses, calls, p, last)
    requires Clock(u, now) == now && Used(last, u, p, next)
    ensures Linked(maps + [next], uses + [u], calls + [now], p, next)
  {
    hide Used;
  }

  function Extended(t: Trace, tick: Tick, now: real, hours: map<int, Bucket>, days: map<int, Bucket>): Trace {
    Trace(t.ticks + [tick], t.calls + [now], t.hours + [hours], t.days + [days])
  }

  lemma TraceGrows(t: Trace, hourly: Plan, daily: Plan, hours: map<int, Bucket>, days: map<int, Bucket>,
                   tick: Tick, now: real, hours': map<int, Bucket>, days': map<int, Bucket>)
    requires TracesTo(t, hourly, daily, hours, days) && GoodTick(tick)
    requires Clock(tick.hour, now) == now && Clock(tick.day, now) == now
    requires Used(hours, tick.hour, hourly, hours') && Used(days, tick.day, daily, days')
    ensures TracesTo(Extended(t, tick, now, hours', days'), hourly, daily, hours', days')
  {
    hide Used, Linked, GoodTick;
    LinkedGrows(t.hours, HourUses(t.ticks), t.calls, hourly, hours, tick.hour, now, hours');
    LinkedGrows(t.days, DayUses(t.ticks), t.calls, daily, days, tick.day, now, days');
    assert HourUses(t.ticks + [tick]) == HourUses(t.ticks) + [tick.hour];
    assert DayUses(t.ticks + [tick]) == DayUses(t.ticks) + [tick.day];
  }

  /** The calls, after a moment no later than the first. */
  function Times(calls: seq<real>): (times: seq<real>)
    ensures |times| == |calls| + 1 && forall k | 0 <= k < |calls| :: times[k + 1] == calls[k]
  {
    [if calls == [] then 0.0 else calls[0]] + calls
  }

  predicate Ascending(calls: seq<real>) {
    forall i, j | 0 <= i <= j < |calls| :: calls[i] <= calls[j]
  }

  /** On a clock that never goes back that is a run. */
  lemma LinkedIsRun(maps: seq<map<int, Bucket>>, uses: seq<Use<int>>, calls: seq<real>, p: Plan, last: map<int, Bucket>)
    requires p.Valid() && |calls| == |uses| && Linked(maps, uses, calls, p, last) && Ascending(calls)
    ensures Run(maps, uses, Times(calls), p)
  {
    hide Used;
  }

  /** While a sender's buckets are not evicted, the decisions asked for in a stretch allow it at most what the
      hourly and what the daily bucket allow, at once. */
  lemma TracedSenderIsBounded(t: Trace, hourly: Plan, daily: Plan, hours: map<int, Bucket>, days: map<int, Bucket>,
                              sender: int, i: nat, j: nat, t1: real, t2: real)
    requires TracesTo(t, hourly, daily, hours, days) && Ascending(t.calls)
    requires i <= j <= |t.ticks| && KeptBetween(t.hours, sender, i, j) && KeptBetween(t.days, sender, i, j)
    requires t1 <= t2 && forall k | i <= k < j :: t1 <= t.calls[k] <= t2
    ensures Allowed(t.ticks[i..j], sender) as real
              <= hourly.limit as real + Inflow(t2 - t1, Rate(hourly.limit, hourly.period))
    ensures Allowed(t.ticks[i..j], sender) as real
              <= daily.limit as real + Inflow(t2 - t1, Rate(daily.limit, daily.period))
  {
    hide Used, Rate, Inflow, Allowed, Run, GoodTick;
    LinkedIsRun(t.hours, HourUses(t.ticks), t.calls, hourly, hours);
    LinkedIsRun(t.days, DayUses(t.ticks), t.calls, daily, days);
    hide Linked;
    var times := Times(t.calls);
    forall k | i < k <= j ensures t1 <= times[k] <= t2 { assert times[k - 1 + 1] == t.calls[k - 1]; }
    SenderIsBounded(t.hours, t.days, t.ticks, times, hourly, daily, sender, i, j, t1, t2);
  }

  // ---------- suspensions ----------

  /** `maps[k + 1]` is what suspending `ids[k]` leads to, from nobody suspended to `last`. */
  ghost predicate Suspensions(maps: seq<map<int, bool>>, ids: seq<int>, capacity: nat, last: map<int, bool>) {
    && |maps| == |ids| + 1 && maps[0] == map[] && maps[|ids|] == last
    && forall k | 0 <= k < |ids| :: Stored(maps[k], ids[k], true, capacity, maps[k + 1])
  }

  lemma SuspensionsGrow(maps: seq<map<int, bool>>, ids: seq<int>, capacity: nat, last: map<int, bool>, id: int,
                        next: map<int, bool>)
    requires Suspensions(maps, ids, capacity, last) && Stored(last, id, true, capacity, next)
    ensures Suspensions(maps + [next], ids + [id], capacity, next)
  {
    hide Stored;
  }

  /** No suspension from the `i`-th to the `j`-th meets a full map, unless the account is suspended already. */
  predicate RoomBetween(maps: seq<map<int, bool>>, ids: seq<int>, capacity: nat, i: nat, j: nat)
    requires i <= j <= |ids| < |maps|
  {
    forall k | i <= k < j :: ids[k] in maps[k] || |maps[k]| < capacity
  }

  /** Over every run an account stays suspended as long as no new suspension meets a full map. */
  lemma {:induction false} StaysSuspended(maps: seq<map<int, bool>>, ids: seq<int>, capacity: nat, last: map<int, bool>,
                                          i: nat, j: nat)
    requires Suspensions(maps, ids, capacity, last) && i < j <= |ids| && RoomBetween(maps, ids, capacity, i + 1, j)
    ensures ids[i] in maps[j] && maps[j][ids[i]]
    decreases j
  {
    if i < j - 1 {
      StaysSuspended(maps, ids, capacity, last, i, j - 1);
    }
    assert Stored(maps[j - 1], ids[j - 1], true, capacity, maps[j - 1 + 1]);
  }

  /** And only accounts that some call suspended are. */
  lemma {:induction false} SuspendedWasAsked(maps: seq<map<int, bool>>, ids: seq<int>, capacity: nat,
                                             last: map<int, bool>, id: int, j: nat) returns (i: nat)
    requires Suspensions(maps, ids, capacity, last) && j <= |ids| && id in maps[j]
    ensures i < j && ids[i] == id
    decreases j
  {
    assert Stored(maps[j - 1], ids[j - 1], true, capacity, maps[j - 1 + 1]);
    if ids[j - 1] == id {
      i := j - 1;
    } else {
      i := SuspendedWasAsked(maps, ids, capacity, last, id, j - 1);
    }
  }

  /** A new suspension that meets a full map may free any account there. */
  lemma AnyoneMayBeFreed(m: map<int, bool>, id: int, other: int, capacity: nat)
    requires id in m && other !in m && |m| >= capacity
    ensures exists m' :: Stored(m, other, true, capacity, m') && id !in m'
  {
    var m' := (m - {id})[other := true];
    assert Stored(m, other, true, capacity, m') && id !in m';
  }

  // ---------- the heaviest senders ----------

  ghost predicate Stored<K(!new), V(!new)>(m: map<K, V>, key: K, v: V, capacity: nat, m': map<K, V>) {
    if key in m || |m| < capacity then m' == m[key := v]
    else exists k :: k in m && m' == (m - {k})[key := v]
  }

  /** While no cell of a handle's senders has wrapped: the record of a handle never evicted is at least the true count
      of each of its senders, and a recorded sender did reach the handle and is estimated at no less than its record. */
  ghost predicate TopCovers(top: map<string, TopRecord>, adds: seq<Pair>, evicted: set<string>, hash: Pair -> Probe,
                            width: nat, depth: nat)
    requires width > 0
  {
    forall t | HandleFits(adds, hash, width, depth, t) ::
      && (t !in evicted ==> CoversAll(top, adds, t))
      && (t in top ==> NamesSender(top[t], adds, hash, width, depth, t))
  }

  ghost predicate CoversAll(top: map<string, TopRecord>, adds: seq<Pair>, t: string) {
    forall s :: Adds(adds, Pair(s, t)) <= TopCount(top, t)
  }

  predicate NamesSender(r: TopRecord, adds: seq<Pair>, hash: Pair -> Probe, width: nat, depth: nat, t: string)
    requires width > 0
  {
    Adds(adds, Pair(r.sender, t)) > 0 && r.count <= Estimated(adds, hash, width, depth, Pair(r.sender, t))
  }

  function TopCount(top: map<string, TopRecord>, t: string): nat {
    if t in top then top[t].count else 0
  }

  /** A count at least as large replaces the record. */
  ghost predicate Replaced(top: map<string, TopRecord>, p: Pair, estimate: nat, capacity: nat,
                           top': map<string, TopRecord>) {
    if p.handle !in top || estimate >= top[p.handle].count
    then Stored(top, p.handle, TopRecord(p.sender, estimate), capacity, top')
    else top' == top
  }

  lemma RecordKeepsCover(top: map<string, TopRecord>, adds: seq<Pair>, evicted: set<string>, hash: Pair -> Probe,
                         width: nat, depth: nat, p: Pair, capacity: nat, top': map<string, TopRecord>)
    requires width > 0 && depth > 0 && TopCovers(top, adds, evicted, hash, width, depth)
    requires Replaced(top, p, Estimated(adds + [p], hash, width, depth, p), capacity, top')
    ensures TopCovers(top', adds + [p], evicted + (top.Keys - top'.Keys), hash, width, depth)
  {
    hide HandleFits, CoversAll, NamesSender, Estimated, Replaced;
    var adds', evicted' := adds + [p], evicted + (top.Keys - top'.Keys);
    forall t | HandleFits(adds', hash, width, depth, t)
      ensures t !in evicted' ==> CoversAll(top', adds', t)
      ensures t in top' ==> NamesSender(top'[t], adds', hash, width, depth, t)
    {
      HandleFitsBefore(adds, p, hash, width, depth, t);
      if t == p.handle {
        OwnPairFits(adds, p, hash, width, depth);
        OwnHandleCovered(top, adds, evicted, hash, width, depth, p, capacity, top');
      } else {
        OthersStayCovered(top, adds, hash, width, depth, p, Estimated(adds', hash, width, depth, p), capacity, top', t);
      }
    }
  }

  lemma OwnPairFits(adds: seq<Pair>, p: Pair, hash: Pair -> Probe, width: nat, depth: nat)
    requires width > 0 && HandleFits(adds + [p], hash, width, depth, p.handle)
    ensures CellsFit(adds + [p], hash, width, depth, p)
  {
    hide CellsFit;
    assert (adds + [p])[|adds|] == p;
  }

  /** The handle just reached: its new record is the larger of the old one and the estimate. */
  lemma OwnHandleCovered(top: map<string, TopRecord>, adds: seq<Pair>, evicted: set<string>, hash: Pair -> Probe,
                         width: nat, depth: nat, p: Pair, capacity: nat, top': map<string, TopRecord>)
    requires width > 0 && depth > 0 && HandleFits(adds + [p], hash, width, depth, p.handle)
    requires HandleFits(adds, hash, width, depth, p.handle) && CellsFit(adds + [p], hash, width, depth, p)
    requires TopCovers(top, adds, evicted, hash, width, depth)
    requires Replaced(top, p, Estimated(adds + [p], hash, width, depth, p), capacity, top')
    ensures p.handle !in evicted ==> CoversAll(top', adds + [p], p.handle)
    ensures p.handle in top' && NamesSender(top'[p.handle], adds + [p], hash, width, depth, p.handle)
  {
    hide HandleFits, CellsFit, Adds, Estimated;
    var e := Estimated(adds + [p], hash, width, depth, p);
    NeverBelow(adds + [p], hash, width, depth, p);
    AddsSnoc(adds, p, p);
    forall s | p.handle !in evicted ensures Adds(adds + [p], Pair(s, p.handle)) <= TopCount(top', p.handle) {
      AddsSnoc(adds, p, Pair(s, p.handle));
      assert CoversAll(top, adds, p.handle);
    }
    if p.handle in top && e < top[p.handle].count {
      var q := Pair(top[p.handle].sender, p.handle);
      assert NamesSender(top[p.handle], adds, hash, width, depth, p.handle);
      AddsSnoc(adds, p, q);
      SenderFits(adds, p, hash, width, depth, q);
      EstimateGrows(adds, p, hash, width, depth, q);
    }
  }

  /** A sender that has reached a handle whose cells fit has cells that fit. */
  lemma SenderFits(adds: seq<Pair>, p: Pair, hash: Pair -> Probe, width: nat, depth: nat, q: Pair)
    requires width > 0 && HandleFits(adds + [p], hash, width, depth, q.handle) && Adds(adds, q) > 0
    ensures CellsFit(adds + [p], hash, width, depth, q)
  {
    hide CellsFit;
    var i := PlaceOf(adds, q);
    assert (adds + [p])[i] == q;
  }

  /** A handle other than the one just reached keeps its record, or loses it altogether. */
  lemma OthersStayCovered(top: map<string, TopRecord>, adds: seq<Pair>, hash: Pair -> Probe, width: nat, depth: nat,
                          p: Pair, estimate: nat, capacity: nat, top': map<string, TopRecord>, t: string)
    requires width > 0 && depth > 0 && t != p.handle && Replaced(top, p, estimate, capacity, top')
    requires HandleFits(adds + [p], hash, width, depth, t)
    ensures t in top' ==> t in top && top'[t] == top[t]
    ensures t !in top.Keys - top'.Keys && CoversAll(top, adds, t) ==> CoversAll(top', adds + [p], t)
    ensures t in top && NamesSender(top[t], adds, hash, width, depth, t) ==>
              NamesSender(top[t], adds + [p], hash, width, depth, t)
  {
    hide HandleFits, CellsFit, Adds, Estimated;
    forall s ensures Adds(adds + [p], Pair(s, t)) == Adds(adds, Pair(s, t)) { AddsSnoc(adds, p, Pair(s, t)); }
    if t in top && NamesSender(top[t], adds, hash, width, depth, t) {
      SenderFits(adds, p, hash, width, depth, Pair(top[t].sender, t));
      EstimateGrows(adds, p, hash, width, depth, Pair(top[t].sender, t));
    }
  }

  lemma {:induction false} PlaceOf(adds: seq<Pair>, q: Pair) returns (i: nat)
    requires Adds(adds, q) > 0
    ensures i < |adds| && adds[i] == q
  {
    var n := |adds| - 1;
    if adds[n] == q {
      i := n;
    } else {
      i := PlaceOf(adds[..n], q);
    }
  }

  // ---------- the group cap and the pair limit ----------

  /** A group not seen before is charged first: the charge is refused, or granted before the pair is asked for. */
  ghost predicate ChargedFirst(base: seq<Grant>, charge: seq<Grant>, log: seq<Grant>, p: Ping,
                               slots: seq<set<nat>>, at: Pair -> set<nat>, ok: bool) {
    && Asked(base, charge, Quota(p.sender), MAX_DISTINCT, Distinct, slots, at, true)
    && Asked(charge, log, p.Pair(), p.limit, Group(true), slots, at, ok)
  }

  /** How a ping that passed the buckets passes or fails the group cap and the pair limit. */
  ghost predicate Passage(base: seq<Grant>, log: seq<Grant>, p: Ping, slots: seq<set<nat>>, at: Pair -> set<nat>,
                          seen: bool, ok: bool) {
    if !p.isGroup then Asked(base, log, p.Pair(), p.limit, Ordinary, slots, at, ok)
    else if seen then Asked(base, log, p.Pair(), p.limit, Group(false), slots, at, ok)
    else
      || (!ok && Asked(base, log, Quota(p.sender), MAX_DISTINCT, Distinct, slots, at, false))
      || exists charge :: ChargedFirst(base, charge, log, p, slots, at, ok)
  }

  /** Each answer on the way is the exact counter's, or due to a false positive. */
  lemma PingIsPassage(w: Window, p: Ping, at: Pair -> set<nat>)
    requires |w.slots| > 0 && Inv(w.slots, w.log, at) && WellCharged(w.log, at)
    ensures var w' := AfterPing(w, p, at);
            Passage(w.log, w'.log, p, w'.slots, at, LooksSeen(w, p.Pair(), at), Passes(w, p, at))
  {
    hide Inv, WellCharged, SlotFor, Asked, LooksSeen;
    var w' := AfterPing(w, p, at);
    if p.isGroup && !LooksSeen(w, p.Pair(), at) {
      AskKeepsInv(w, Quota(p.sender), MAX_DISTINCT, Distinct, at);
      if !Refused(w, p, at) {
        var charged := Charged(w, p, at);
        AskKeepsInv(charged, p.Pair(), p.limit, Group(true), at);
        GrantedAlike(w.log, charged.log, Quota(p.sender), MAX_DISTINCT, Distinct, charged.slots, w'.slots, at);
        assert ChargedFirst(w.log, charged.log, w'.log, p, w'.slots, at, Passes(w, p, at));
      }
    } else {
      AskKeepsInv(w, p.Pair(), p.limit, PurposeOf(w, p, at), at);
    }
  }

  // ---------- which calls the grants of a window stand for ----------

  /** A call that was allowed. */
  datatype Call = Call(sender: int, handle: string, kind: Kind)

  /** The grants that are not charges. */
  function Passages(log: seq<Grant>): seq<Grant> {
    if log == [] then []
    else
      var n := |log| - 1;
      if log[n].purpose == Distinct then Passages(log[..n]) else Passages(log[..n]) + [log[n]]
  }

  lemma PassagesSnoc(log: seq<Grant>, g: Grant)
    ensures Passages(log + [g]) == if g.purpose == Distinct then Passages(log) else Passages(log) + [g]
  {
    assert (log + [g])[..|log|] == log;
  }

  /** A ping that passes leaves one more grant besides charges, its own and the last; one that fails leaves none. */
  lemma PingLeavesGrant(w: Window, p: Ping, at: Pair -> set<nat>)
    requires |w.slots| > 0
    ensures var log := AfterPing(w, p, at).log;
            if !Passes(w, p, at) then Passages(log) == Passages(w.log)
            else log != [] && IsGrantOf(log[|log| - 1], p) && Passages(log) == Passages(w.log) + [log[|log| - 1]]
  {
    hide SlotFor, LooksSeen;
    if !Refused(w, p, at) {
      var c := Charged(w, p, at);
      if p.isGroup && !LooksSeen(w, p.Pair(), at) {
        var slot := SlotFor(w, Quota(p.sender), MAX_DISTINCT, at);
        PassagesSnoc(w.log, Grant(Quota(p.sender), slot.value, MAX_DISTINCT, Distinct));
      }
      var slot := SlotFor(c, p.Pair(), p.limit, at);
      if slot.Some? {
        PassagesSnoc(c.log, Grant(p.Pair(), slot.value, p.limit, PurposeOf(w, p, at)));
      }
    }
  }

  predicate IsGrantOf(g: Grant, p: Ping) {
    g.pair == p.Pair() && g.limit == p.limit && if p.isGroup then g.purpose.Group? else g.purpose == Ordinary
  }

  /** The handles that calls for groups were allowed to reach. */
  function GroupsReached(calls: seq<Call>, sender: int): set<string> {
    set i | 0 <= i < |calls| && calls[i].kind == GroupHandle && calls[i].sender == sender :: calls[i].handle
  }

  function GroupsPassed(passages: seq<Grant>, sender: int): set<string> {
    set i | 0 <= i < |passages| && passages[i].purpose.Group? && passages[i].pair.sender == sender ::
      passages[i].pair.handle
  }

  lemma {:induction false} PassagesHoldGroups(log: seq<Grant>, sender: int)
    ensures Groups(log, sender) == GroupsPassed(Passages(log), sender)
  {
    if log != [] {
      var n := |log| - 1;
      PassagesHoldGroups(log[..n], sender);
      GroupsSnoc(log, sender);
      if log[n].purpose != Distinct { PassedSnoc(Passages(log[..n]), log[n], sender); }
    }
  }

  lemma PassedSnoc(s: seq<Grant>, g: Grant, sender: int)
    ensures GroupsPassed(s + [g], sender) == GroupsPassed(s, sender)
              + (if g.purpose.Group? && g.pair.sender == sender then {g.pair.handle} else {})
  {
    assert (s + [g])[|s|] == g && forall i | 0 <= i < |s| :: (s + [g])[i] == s[i];
  }

  class Service {
    const cascade: Cascade
    const sketch: Sketch
    const hourly: Plan
    const daily: Plan
    const perTarget: Plan
    const capacity: nat
    const pairPersonal: nat
    const pairSocial: nat
    const pairGroup: nat
    const pairStream: nat
    var hourBuckets: map<int, Bucket>
    var dayBuckets: map<int, Bucket>
    var targetBuckets: map<string, Bucket>
    var suspended: map<int, bool>
    var topSenders: map<string, TopRecord>
    /** The handles whose record has ever been evicted. */
    ghost var evicted: set<string>
    /** All decisions so far. */
    ghost var trace: Trace
    /** The accounts suspended so far, and the map between those calls. */
    ghost var suspensions: seq<int>
    ghost var held: seq<map<int, bool>>
    /** The calls allowed in the current window of the cascade. */
    ghost var passed: seq<Call>

    predicate Configured() {
      && hourly.Valid() && daily.Valid() && perTarget.Valid() && capacity > 0
      && hourly.capacity == daily.capacity == perTarget.capacity == capacity
    }

    predicate MapsBounded()
      reads this
    {
      && |hourBuckets| <= capacity && |dayBuckets| <= capacity && |targetBuckets| <= capacity
      && |suspended| <= capacity && |topSenders| <= capacity
    }

    ghost predicate CascadeValid()
      reads cascade, Arrays(cascade.curr.slots)
    {
      cascade.Valid() && WellCharged(cascade.log, cascade.Positions())
    }

    ghost predicate TopValid()
      reads `topSenders, `evicted, sketch, sketch.table
    {
      sketch.Valid() && TopCovers(topSenders, sketch.adds, evicted, sketch.hash, sketch.width, sketch.depth)
    }

    ghost predicate Traced()
      reads `trace, `hourBuckets, `dayBuckets, `suspended, `suspensions, `held
    {
      && TracesTo(trace, hourly, daily, hourBuckets, dayBuckets)
      && Suspensions(held, suspensions, capacity, suspended)
    }

    ghost predicate Valid()
      reads this, cascade, Arrays(cascade.curr.slots), sketch, sketch.table
    {
      Configured() && MapsBounded() && CascadeValid() && TopValid() && Traced() && Booked(passed, cascade.log)
    }

    /** The grant is the call's, with the limit of its kind, and a group's exactly if the call was for a group. */
    predicate GrantedFor(g: Grant, c: Call) {
      && g.pair == Pair(c.sender, c.handle)
      && match c.kind
         case GroupHandle => g.purpose.Group? && g.limit == pairGroup
         case Personal => g.purpose == Ordinary && g.limit == pairPersonal
         case Social => g.purpose == Ordinary && g.limit == pairSocial
         case Stream => g.purpose == Ordinary && g.limit == pairStream
    }

    /** Charges apart, the grants of the window are those of the calls allowed in it, in order. */
    predicate Booked(calls: seq<Call>, log: seq<Grant>) {
      var grants := Passages(log);
      |grants| == |calls| && forall i | 0 <= i < |grants| :: GrantedFor(grants[i], calls[i])
    }

    lemma BookedGoesOn(calls: seq<Call>, w: Window, call: Call, at: Pair -> set<nat>)
      requires |w.slots| > 0 && Booked(calls, w.log)
      ensures var p := AsPing(call.sender, call.handle, call.kind);
              var log := AfterPing(w, p, at).log;
              && Booked(if Passes(w, p, at) then calls + [call] else calls, log)
              && (Passes(w, p, at) ==> log != [] && GrantedFor(log[|log| - 1], call))
    {
      hide AfterPing, Passes;
      PingLeavesGrant(w, AsPing(call.sender, call.handle, call.kind), at);
    }

    lemma BookedGroups(calls: seq<Call>, log: seq<Grant>, sender: int)
      requires Booked(calls, log)
      ensures GroupsReached(calls, sender) == Groups(log, sender)
    {
      PassagesHoldGroups(log, sender);
      var grants := Passages(log);
      hide Groups, Passages;
      forall h ensures h in GroupsReached(calls, sender) <==> h in GroupsPassed(grants, sender) {
        if h in GroupsReached(calls, sender) {
          var i :| 0 <= i < |calls| && calls[i].kind == GroupHandle && calls[i].sender == sender &&
              calls[i].handle == h;
          assert GrantedFor(grants[i], calls[i]);
        }
        if h in GroupsPassed(grants, sender) {
          var i :| 0 <= i < |grants| && grants[i].purpose.Group? && grants[i].pair.sender == sender &&
                   grants[i].pair.handle == h;
          assert GrantedFor(grants[i], calls[i]);
        }
      }
    }

    /** Main result: in every state of the guard, the distinct handles that calls for groups were allowed to reach for a
        sender in this window are at most ten, and those that bypassed the charge. */
    lemma GroupsAreCapped(sender: int)
      requires Valid()
      ensures |GroupsReached(passed, sender)| ==
                ChargedGroups(cascade.log, sender) + Bypasses(cascade.log, sender) <=
                10 + Bypasses(cascade.log, sender)
    {
      hide MapsBounded, TopValid, Traced, Booked;
      BookedGroups(passed, cascade.log, sender);
      WindowIsLimited(sender);
    }

    constructor (personal: int, social: int, grp: int, stream: int, hour: int, day: int, mapCapacity: int,
                 slotBytes: int, width: int, depth: int, mac: (nat, Pair) -> Probe, hash: Pair -> Probe,
                 today: int, key: nat, prevKey: nat)
      ensures Valid() && fresh(cascade) && fresh(sketch) && fresh(sketch.table) && fresh(Arrays(cascade.curr.slots))
      ensures pairStream == Default(stream, 10) && pairPersonal == Default(personal, 3)
      ensures hourly.limit == Default(hour, 20) && hourly.period == 3600.0
      ensures daily.limit == Default(day, 100) && daily.period == 86400.0
      ensures hourBuckets == map[] && dayBuckets == map[] && cascade.log == [] && sketch.adds == []
      ensures trace.ticks == [] && suspensions == [] && passed == []
      ensures pairSocial == Default(social, 3) && pairGroup == Default(grp, 3)
      ensures perTarget.limit == 1000 && perTarget.period == 3600.0 && capacity == Default(mapCapacity, 10_000)
    {
      var size := Default(mapCapacity, 10_000);
      cascade := new Cascade(Default(stream, 10), slotBytes, mac, today, key, prevKey);
      sketch := new Sketch(width, depth, hash);
      hourly := Plan(Default(hour, 20), 3600.0, size);
      daily := Plan(Default(day, 100), 86400.0, size);
      perTarget := Plan(1000, 3600.0, size);
      capacity := size;
      pairPersonal, pairSocial := Default(personal, 3), Default(social, 3);
      pairGroup, pairStream := Default(grp, 3), Default(stream, 10);
      hourBuckets, dayBuckets, targetBuckets := map[], map[], map[];
      suspended, topSenders, evicted := map[], map[], {};
      trace, suspensions, held := Trace([], [], [map[]], [map[]]), [], [map[]];
      passed := [];
      new;
      NothingCharged(cascade.Positions());
    }

    /** In every state of the guard: each grant of the window is one an exact counter would have made too, and the
        distinct groups of a sender are its charged grants, at most ten, and its bypasses. */
    lemma WindowIsLimited(sender: int)
      requires Valid()
      ensures AllExact(cascade.log, cascade.maxSlots)
      ensures |Groups(cascade.log, sender)| == ChargedGroups(cascade.log, sender) + Bypasses(cascade.log, sender)
      ensures ChargedGroups(cascade.log, sender) <= MAX_DISTINCT
    {
      DistinctGroupsCount(cascade.log, cascade.Positions(), sender, cascade.maxSlots);
    }

    /** In every state of the guard, on a clock that never went back: while a sender's buckets were not evicted, the
        decisions asked for in a stretch allowed it at most what the hourly and what the daily bucket allow. */
    lemma SenderIsLimited(sender: int, i: nat, j: nat, t1: real, t2: real)
      requires Valid() && Ascending(trace.calls) && i <= j <= |trace.ticks|
      requires KeptBetween(trace.hours, sender, i, j) && KeptBetween(trace.days, sender, i, j)
      requires t1 <= t2 && forall k | i <= k < j :: t1 <= trace.calls[k] <= t2
      ensures Allowed(trace.ticks[i..j], sender) as real
                <= hourly.limit as real + Inflow(t2 - t1, Rate(hourly.limit, hourly.period))
      ensures Allowed(trace.ticks[i..j], sender) as real
                <= daily.limit as real + Inflow(t2 - t1, Rate(daily.limit, daily.period))
    {
      hide CascadeValid, TopValid, MapsBounded;
      TracedSenderIsBounded(trace, hourly, daily, hourBuckets, dayBuckets, sender, i, j, t1, t2);
    }

    /** An account once suspended still is, if no later suspension of another met a full map. */
    lemma SuspensionHolds(i: nat)
      requires Valid() && i < |suspensions| && RoomBetween(held, suspensions, capacity, i + 1, |suspensions|)
      ensures IsSuspended(suspensions[i])
    {
      hide CascadeValid, TopValid, MapsBounded, TracesTo;
      StaysSuspended(held, suspensions, capacity, suspended, i, |suspensions|);
    }

    function PairLimit(kind: Kind): nat {
      match kind
      case Stream => pairStream
      case Social => pairSocial
      case GroupHandle => pairGroup
      case Personal => pairPersonal
    }

    /** Suspends an account; a full map of suspensions loses another one for it. */
    method SuspendAccount(id: int)
      requires Valid()
      modifies `suspended, `suspensions, `held
      ensures Valid() && id in suspended && suspended[id]
      ensures Stored(old(suspended), id, true, capacity, suspended)
      ensures suspensions == old(suspensions) + [id] && held == old(held) + [suspended]
    {
      hide CascadeValid, TopValid, Stored, TracesTo, Suspensions, Booked;
      Suspend(id);
      assert forall a | a in Arrays(cascade.curr.slots) :: unchanged(a);
    }

    method Suspend(id: int)
      requires capacity > 0 && |suspended| <= capacity && Suspensions(held, suspensions, capacity, suspended)
      modifies `suspended, `suspensions, `held
      ensures id in suspended && suspended[id] && |suspended| <= capacity
      ensures Stored(old(suspended), id, true, capacity, suspended)
      ensures Suspensions(held, suspensions, capacity, suspended)
      ensures suspensions == old(suspensions) + [id] && held == old(held) + [suspended]
    {
      hide Stored, Suspensions;
      var after := Store(suspended, id, true, capacity);
      SuspensionsGrow(held, suspensions, capacity, suspended, id, after);
      suspended, suspensions, held := after, suspensions + [id], held + [after];
    }

    /** The ping as the cascade sees it. */
    function AsPing(sender: int, handle: string, kind: Kind): Ping {
      Ping(sender, handle, kind == GroupHandle, PairLimit(kind))
    }

    /** The group cap and the pair cascade. */
    method PassCascade(sender: int, handle: string, kind: Kind, today: int, key: nat) returns (ok: bool)
      requires CascadeValid()
      modifies cascade, Arrays(cascade.curr.slots)
      ensures CascadeValid()
      ensures if today > old(cascade.curr.day) then fresh(Arrays(cascade.curr.slots))
          else cascade.curr == old(cascade.curr)
      ensures cascade.View() == AfterPing(old(cascade.Opened(today)), AsPing(sender, handle, kind), cascade.Positions())
      ensures ok == Passes(old(cascade.Opened(today)), AsPing(sender, handle, kind), cascade.Positions())
    {
      hide WellCharged, Inv, Asked, AfterAsk, SlotFor, Contents;
      ghost var w := cascade.Opened(today);
      if kind == GroupHandle {
        ok := PassGroup(Pair(sender, handle), PairLimit(kind), today, key);
      } else {
        ok := cascade.Allow(Pair(sender, handle), PairLimit(kind), today, key, Ordinary);
      }
      OpenedIsRight(w, cascade.maxSlots, cascade.Positions());
      PingKeepsInv(w, AsPing(sender, handle, kind), cascade.Positions());
    }

    method PassGroup(pair: Pair, limit: nat, today: int, key: nat) returns (ok: bool)
      requires cascade.Valid()
      modifies cascade, Arrays(cascade.curr.slots)
      ensures cascade.Valid()
      ensures if today > old(cascade.curr.day) then fresh(Arrays(cascade.curr.slots))
          else cascade.curr == old(cascade.curr)
      ensures cascade.View() == AfterPing(old(cascade.Opened(today)), Ping(pair.sender, pair.handle, true, limit),
                                          cascade.Positions())
      ensures ok == Passes(old(cascade.Opened(today)), Ping(pair.sender, pair.handle, true, limit), cascade.Positions())
    {
      hide Inv, Asked, SlotFor, Contents;
      var seen := cascade.HasSeenToday(pair, today, key);
      if !seen {
        var charged := cascade.Allow(Pair(pair.sender, DISTINCT_GROUPS), MAX_DISTINCT, today, key, Distinct);
        if !charged {
          return false;
        }
      }
      ok := cascade.Allow(pair, limit, today, key, Group(!seen));
    }

    /** Telemetry: the sketch, and the handle's record if the new estimate is at least as large. */
    method Record(p: Pair)
      requires TopValid() && capacity > 0 && |topSenders| <= capacity
      modifies sketch`adds, sketch.table, `topSenders, `evicted
      ensures TopValid() && sketch.adds == old(sketch.adds) + [p] && |topSenders| <= capacity
      ensures evicted == old(evicted) + (old(topSenders.Keys) - topSenders.Keys)
      ensures Replaced(old(topSenders), p, Estimated(sketch.adds, sketch.hash, sketch.width, sketch.depth, p),
                       capacity, topSenders)
    {
      hide Estimated, Adds, Hits, TopCovers;
      ghost var adds, top := sketch.adds, topSenders;
      sketch.Add(p);
      var estimate := sketch.Estimate(p);
      if p.handle !in topSenders || estimate >= topSenders[p.handle].count {
        topSenders := Store(topSenders, p.handle, TopRecord(p.sender, estimate), capacity);
      }
      evicted := evicted + (top.Keys - topSenders.Keys);
      RecordKeepsCover(top, adds, old(evicted), sketch.hash, sketch.width, sketch.depth, p, capacity, topSenders);
    }

    /** The recorded heaviest sender of a handle. While no cell of the handle's senders has wrapped, nobody is returned
        for a handle never evicted only if nobody reached it, and whoever is returned did reach it and is estimated at
        no less than any sender's true count. */
    method TopSender(handle: string) returns (sender: Option<int>)
      requires Valid()
      ensures sender == if TopCount(topSenders, handle) > 0 then Some(topSenders[handle].sender) else None
      ensures HandleFits(sketch.adds, sketch.hash, sketch.width, sketch.depth, handle) && handle !in evicted ==>
                forall s :: Adds(sketch.adds, Pair(s, handle)) <= EstimateOf(sender, handle)
      ensures HandleFits(sketch.adds, sketch.hash, sketch.width, sketch.depth, handle) && sender.Some? ==>
                Adds(sketch.adds, Pair(sender.value, handle)) > 0
    {
      hide Adds, HandleFits, Estimated;
      sender := None;
      if handle in topSenders && topSenders[handle].count > 0 {
        sender := Some(topSenders[handle].sender);
      }
      if HandleFits(sketch.adds, sketch.hash, sketch.width, sketch.depth, handle) && handle !in evicted {
        assert CoversAll(topSenders, sketch.adds, handle);
      }
    }

    /** What the sketch says of the sender returned for a handle, or 0 for nobody. */
    ghost function EstimateOf(sender: Option<int>, handle: string): nat
      requires sketch.Valid()
      reads sketch, sketch.table
    {
      if sender.None? then 0
      else Estimated(sketch.adds, sketch.hash, sketch.width, sketch.depth, Pair(sender.value, handle))
    }

    /** The decision, in the order of the checks; each check reached consumes its quota. `blocked` is what the block
        store says. */
    method Allow(sender: int, handle: string, kind: Kind, blocked: bool, now: real, today: int, key: nat)
        returns (allowed: bool, ghost tick: Tick)
      requires Valid()
      modifies this, cascade, Arrays(cascade.curr.slots), sketch, sketch.table
      ensures Valid()
      ensures GoodTick(tick) && tick.sender == sender && tick.allowed == allowed
      ensures Clock(tick.hour, now) == now && Clock(tick.day, now) == now
      ensures tick.hour.Idle? <==> blocked || IsSuspended(sender)
      ensures Used(old(hourBuckets), tick.hour, hourly, hourBuckets) &&
          Used(old(dayBuckets), tick.day, daily, dayBuckets)
      ensures Used(old(targetBuckets), tick.target, perTarget, targetBuckets)
      ensures tick.target.Use? ==> tick.target.key == handle && tick.target.now == now
      ensures suspended == old(suspended) && suspensions == old(suspensions) && held == old(held)
      ensures trace == Extended(old(trace), tick, now, hourBuckets, dayBuckets)
      ensures !Took(tick.target) ==> cascade.log == old(cascade.log) && cascade.curr == old(cascade.curr)
      ensures Took(tick.target) ==>
        cascade.View() == AfterPing(old(cascade.Opened(today)), AsPing(sender, handle, kind), cascade.Positions())
      ensures allowed == (Took(tick.target) &&
        Passes(old(cascade.Opened(today)), AsPing(sender, handle, kind), cascade.Positions()))
      ensures allowed ==> cascade.log != [] && GrantedFor(cascade.log[|cascade.log| - 1], Call(sender, handle, kind))
      ensures passed == (if Took(tick.target) && today > old(cascade.curr.day) then [] else old(passed))
                          + (if allowed then [Call(sender, handle, kind)] else [])
      ensures sketch.adds == old(sketch.adds) + (if allowed then [Pair(sender, handle)] else [])
      ensures if allowed then Replaced(old(topSenders), Pair(sender, handle), EstimateOf(Some(sender), handle),
                                       capacity, topSenders)
              else topSenders == old(topSenders)
    {
      hide Used, CascadeValid, AfterPing, Passes, GoodTick, TopCovers, Estimated, Replaced, TracesTo, Suspensions,
          Booked,
        GrantedFor;
      ghost var hours, days := hourBuckets, dayBuckets;
      ghost var kept := OpenedCalls(today);
      tick := Tick(sender, false, Idle, Idle, Idle);
      IdleTick(tick);
      allowed := false;
      StaysIdle(hourBuckets, hourly);
      StaysIdle(dayBuckets, daily);
      StaysIdle(targetBuckets, perTarget);
      if !IsSuspended(sender) && !blocked {
        allowed, tick := Decide(sender, handle, kind, now, today, key);
      }
      if Took(tick.target) {
        BookedGoesOn(kept, old(cascade.Opened(today)), Call(sender, handle, kind), cascade.Positions());
      } else {
        kept := passed;
      }
      assert kept + [] == kept;
      Note(tick, now, hours, days, kept + (if allowed then [Call(sender, handle, kind)] else []));
    }

    /** The calls of the window that a request on that day finds. */
    ghost function OpenedCalls(today: int): (calls: seq<Call>)
      requires CascadeValid() && Booked(passed, cascade.log)
      reads `passed, cascade, Arrays(cascade.curr.slots)
      ensures |cascade.Opened(today).slots| > 0 && Booked(calls, cascade.Opened(today).log)
    {
      if today > cascade.curr.day then [] else passed
    }

    /** The decision joins the trace, and the call those allowed in the window. */
    ghost method Note(tick: Tick, now: real, hours: map<int, Bucket>, days: map<int, Bucket>, calls: seq<Call>)
      requires Configured() && MapsBounded() && CascadeValid() && TopValid()
      requires Suspensions(held, suspensions, capacity, suspended) && Booked(calls, cascade.log)
      requires TracesTo(trace, hourly, daily, hours, days) && GoodTick(tick)
      requires Clock(tick.hour, now) == now && Clock(tick.day, now) == now
      requires Used(hours, tick.hour, hourly, hourBuckets) && Used(days, tick.day, daily, dayBuckets)
      modifies `trace, `passed
      ensures passed == calls
      ensures Valid() && cascade.View() == old(cascade.View())
      ensures trace == Extended(old(trace), tick, now, hourBuckets, dayBuckets)
    {
      hide Used, GoodTick, TracesTo, WellCharged, Inv, TopCovers, Suspensions, Booked;
      TraceGrows(trace, hourly, daily, hours, days, tick, now, hourBuckets, dayBuckets);
      trace, passed := Extended(trace, tick, now, hourBuckets, dayBuckets), calls;
      assert forall a | a in Arrays(cascade.curr.slots) :: unchanged(a);
    }

    /** The buckets, and behind them the other checks. */
    method Decide(sender: int, handle: string, kind: Kind, now: real, today: int, key: nat)
        returns (allowed: bool, ghost tick: Tick)
      requires Configured() && MapsBounded() && CascadeValid() && TopValid()
      modifies `hourBuckets, `dayBuckets, `targetBuckets, cascade, Arrays(cascade.curr.slots)
      modifies sketch`adds, sketch.table, `topSenders, `evicted
      ensures MapsBounded() && CascadeValid() && TopValid()
      ensures GoodTick(tick) && tick.sender == sender && tick.allowed == allowed
      ensures Clock(tick.hour, now) == now && Clock(tick.day, now) == now && tick.hour.Use?
      ensures Used(old(hourBuckets), tick.hour, hourly, hourBuckets) &&
          Used(old(dayBuckets), tick.day, daily, dayBuckets)
      ensures Used(old(targetBuckets), tick.target, perTarget, targetBuckets)
      ensures tick.target.Use? ==> tick.target.key == handle && tick.target.now == now
      ensures !Took(tick.target) ==> cascade.log == old(cascade.log) && cascade.curr == old(cascade.curr)
      ensures Took(tick.target) ==>
        cascade.View() == AfterPing(old(cascade.Opened(today)), AsPing(sender, handle, kind), cascade.Positions())
      ensures allowed == (Took(tick.target) &&
        Passes(old(cascade.Opened(today)), AsPing(sender, handle, kind), cascade.Positions()))
      ensures sketch.adds == old(sketch.adds) + (if allowed then [Pair(sender, handle)] else [])
      ensures if allowed
              then Replaced(old(topSenders), Pair(sender, handle), EstimateOf(Some(sender), handle), capacity,
                            topSenders)
              else topSenders == old(topSenders)
    {
      hide Used, CascadeValid, AfterPing, Passes, GoodTick, TopCovers, Estimated, Replaced;
      var buckets := TakeBuckets(sender, handle, now);
      tick := buckets;
      allowed := false;
      if Took(buckets.target) {
        allowed := PassAndRecord(sender, handle, kind, today, key);
        if allowed {
          AllowedTick(buckets);
          tick := buckets.(allowed := true);
        }
      }
    }

    /** The checks behind the buckets, and the telemetry of a ping that passes them. */
    method PassAndRecord(sender: int, handle: string, kind: Kind, today: int, key: nat) returns (ok: bool)
      requires CascadeValid() && TopValid() && capacity > 0 && |topSenders| <= capacity
      modifies cascade, Arrays(cascade.curr.slots), sketch`adds, sketch.table, `topSenders, `evicted
      ensures CascadeValid() && TopValid() && |topSenders| <= capacity
      ensures cascade.View() == AfterPing(old(cascade.Opened(today)), AsPing(sender, handle, kind), cascade.Positions())
      ensures ok == Passes(old(cascade.Opened(today)), AsPing(sender, handle, kind), cascade.Positions())
      ensures sketch.adds == old(sketch.adds) + (if ok then [Pair(sender, handle)] else [])
      ensures if ok then Replaced(old(topSenders), Pair(sender, handle), EstimateOf(Some(sender), handle), capacity,
                                  topSenders)
              else topSenders == old(topSenders)
    {
      hide CascadeValid, AfterPing, Passes, TopCovers, Estimated, Replaced;
      ok := PassCascade(sender, handle, kind, today, key);
      if ok {
        Record(Pair(sender, handle));
      }
    }

    predicate IsSuspended(id: int)
      reads `suspended
    {
      id in suspended && suspended[id]
    }

    /** The hourly, the daily and the target's bucket, in this order; a refusal leaves the later ones alone. */
    method TakeBuckets(sender: int, handle: string, now: real) returns (tick: Tick)
      requires Configured() && MapsBounded()
      modifies `hourBuckets, `dayBuckets, `targetBuckets
      ensures MapsBounded()
      ensures GoodTick(tick) && tick.sender == sender && !tick.allowed
      ensures tick.hour.Use? && Clock(tick.hour, now) == now && Clock(tick.day, now) == now
      ensures tick.target.Use? ==> tick.target.key == handle && tick.target.now == now
      ensures Used(old(hourBuckets), tick.hour, hourly, hourBuckets) &&
          Used(old(dayBuckets), tick.day, daily, dayBuckets)
      ensures Used(old(targetBuckets), tick.target, perTarget, targetBuckets)
    {
      hide Used;
      var ok;
      StaysIdle(dayBuckets, daily);
      StaysIdle(targetBuckets, perTarget);
      hourBuckets, ok := Take(hourBuckets, sender, now, hourly);
      tick := Tick(sender, false, Use(sender, now, ok), Idle, Idle);
      if !ok {
        return;
      }
      dayBuckets, ok := Take(dayBuckets, sender, now, daily);
      tick := tick.(day := Use(sender, now, ok));
      if !ok {
        return;
      }
      targetBuckets, ok := Take(targetBuckets, handle, now, perTarget);
      tick := tick.(target := Use(handle, now, ok));
    }
  }

  lemma IdleTick(t: Tick)
    requires t.hour.Idle? && t.day.Idle? && t.target.Idle? && !t.allowed
    ensures GoodTick(t)
  {
  }

  lemma AllowedTick(t: Tick)
    requires GoodTick(t) && Took(t.target)
    ensures GoodTick(t.(allowed := true))
  {
  }

  lemma StaysIdle<K(!new)>(m: map<K, Bucket>, p: Plan)
    requires p.Valid()
    ensures Used(m, Idle, p, m)
  {
  }

  function Default(configured: int, otherwise: nat): (n: nat)
    requires otherwise > 0
    ensures n > 0
  {
    if configured <= 0 then otherwise else configured
  }

  /** A grant's place depends on the number of slots only. */
  lemma GrantedAlike(base: seq<Grant>, log: seq<Grant>, pair: Pair, limit: int, purpose: Purpose,
                     slots: seq<set<nat>>, slots': seq<set<nat>>, at: Pair -> set<nat>)
    requires Asked(base, log, pair, limit, purpose, slots, at, true) && |slots'| == |slots|
    ensures Asked(base, log, pair, limit, purpose, slots', at, true)
  {
  }

  /** The window a request finds is right under the key it is judged by. */
  lemma OpenedIsRight(w: Window, maxSlots: nat, at: Pair -> set<nat>)
    requires (Inv(w.slots, w.log, at) && WellCharged(w.log, at)) || w == Opening(maxSlots)
    ensures Inv(w.slots, w.log, at) && WellCharged(w.log, at)
  {
    if w == Opening(maxSlots) {
      EmptyWindowInv(w.slots, at);
      NothingCharged(at);
    }
  }

  method Store<K(!new, ==), V(!new)>(m: map<K, V>, key: K, v: V, capacity: nat) returns (m': map<K, V>)
    requires capacity > 0 && |m| <= capacity
    ensures Stored(m, key, v, capacity, m') && |m'| <= capacity
    ensures key in m' && m'[key] == v
  {
    m' := m;
    if key !in m && |m| >= capacity {
      assert m.Keys != {};
      var k :| k in m.Keys;
      m' := m - {k};
      assert m'.Keys == m.Keys - {k};
    }
    assert m'[key := v].Keys == m'.Keys + {key};
    m' := m'[key := v];
  }
}
