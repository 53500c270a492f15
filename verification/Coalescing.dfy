/** The bounded ingress queue and the accumulator that turns pings into windowed digests. */
module Coalescing {
  import opened Wrappers

  datatype Account = Account(number: int)

  /** An accepted ping; an absent time is the zero time. */
  datatype Job = Job(recipient: Account, enqueuedAt: Option<int>)

  datatype Entry = Entry(count: nat, firstSeen: int, lastSeen: int)

  datatype Digest = Digest(recipient: Account, count: nat)

  datatype Config = Config(defaultWindow: int, maxAge: int, maxRecipients: int, windows: Account -> int)
  {
    predicate Valid() {
      defaultWindow > 0 && maxAge > 0 && maxRecipients > 0
    }

    /** The window of an account: its own if that is positive. */
    function Window(account: Account): (w: int)
      requires Valid()
      ensures w > 0
    {
      if windows(account) > 0 then windows(account) else defaultWindow
    }
  }

  datatype Outcome = Ingested | Stale | Full

  predicate IsStale(c: Config, job: Job, now: int) {
    job.enqueuedAt.Some? && now - job.enqueuedAt.value > c.maxAge
  }

  function Decide(c: Config, items: map<Account, Entry>, job: Job, now: int): Outcome {
    if IsStale(c, job, now) then Stale
    else if job.recipient !in items && |items| >= c.maxRecipients then Full
    else Ingested
  }

  function Accumulated(items: map<Account, Entry>, job: Job, now: int): map<Account, Entry> {
    if job.recipient in items
    then items[job.recipient := items[job.recipient].(count := items[job.recipient].count + 1, lastSeen := now)]
    else items[job.recipient := Entry(1, now, now)]
  }

  predicate Expired(c: Config, id: Account, e: Entry, now: int)
    requires c.Valid()
  {
    now - e.firstSeen >= c.Window(id)
  }

  function Due(c: Config, items: map<Account, Entry>, now: int): map<Account, Entry>
    requires c.Valid()
  {
    map id | id in items && Expired(c, id, items[id], now) :: items[id]
  }

  function Rest(c: Config, items: map<Account, Entry>, now: int): map<Account, Entry>
    requires c.Valid()
  {
    map id | id in items && !Expired(c, id, items[id], now) :: items[id]
  }

  // ---------- sums of counts ----------

  ghost function Total(items: map<Account, Entry>): nat
    decreases |items|
  {
    if items == map[] then 0
    else
      var id :| id in items;
      Shrinks(items, id);
      items[id].count + Total(items - {id})
  }

  lemma Shrinks(items: map<Account, Entry>, id: Account)
    requires id in items
    ensures |items - {id}| < |items|
  {
    assert (items - {id}).Keys == items.Keys - {id};
  }

  /** The total does not depend on the order in which entries are taken. */
  lemma {:induction false} TotalWithout(items: map<Account, Entry>, id: Account)
    requires id in items
    ensures Total(items) == items[id].count + Total(items - {id})
    decreases |items|
  {
    var first :| first in items && Total(items) == items[first].count + Total(items - {first});
    if first != id {
      var rest := items - {first};
      Shrinks(items, first);
      Shrinks(items, id);
      TotalWithout(rest, id);
      TotalWithout(items - {id}, first);
      assert rest - {id} == items - {id} - {first};
    }
  }

  lemma TotalWith(items: map<Account, Entry>, id: Account, e: Entry)
    ensures Total(items[id := e]) == e.count + Total(items - {id})
  {
    TotalWithout(items[id := e], id);
    assert items[id := e] - {id} == items - {id};
  }

  /** An ingested job adds one. */
  lemma AccumulatedTotal(items: map<Account, Entry>, job: Job, now: int)
    ensures Total(Accumulated(items, job, now)) == Total(items) + 1
  {
    var id := job.recipient;
    if id in items {
      TotalWith(items, id, items[id].(count := items[id].count + 1, lastSeen := now));
      TotalWithout(items, id);
    } else {
      TotalWith(items, id, Entry(1, now, now));
      assert items - {id} == items;
    }
  }

  /** Digests that list each entry of `m` once, in some order. */
  ghost predicate Lists(digests: seq<Digest>, m: map<Account, Entry>) {
    && (forall i | 0 <= i < |digests| :: digests[i].recipient in m && digests[i].count == m[digests[i].recipient].count)
    && (forall i, j | 0 <= i < j < |digests| :: digests[i].recipient != digests[j].recipient)
    && (forall id | id in m :: exists i :: 0 <= i < |digests| && digests[i].recipient == id)
  }

  function Sum(digests: seq<Digest>): nat {
    if digests == [] then 0 else Sum(digests[..|digests| - 1]) + digests[|digests| - 1].count
  }

  lemma {:induction false} SumIsTotal(digests: seq<Digest>, m: map<Account, Entry>)
    requires Lists(digests, m)
    ensures Sum(digests) == Total(m)
    decreases |digests|
  {
    if digests == [] {
      assert forall id :: id !in m;
      assert m == map[];
    } else {
      var n := |digests| - 1;
      var d := digests[n];
      ListsWithoutLast(digests, m);
      SumIsTotal(digests[..n], m - {d.recipient});
      TotalWithout(m, d.recipient);
    }
  }

  /** What the digests say of one account. */
  function SumFor(digests: seq<Digest>, id: Account): nat {
    if digests == [] then 0
    else
      var d := digests[|digests| - 1];
      SumFor(digests[..|digests| - 1], id) + (if d.recipient == id then d.count else 0)
  }

  lemma {:induction false} SumForConcat(a: seq<Digest>, b: seq<Digest>, id: Account)
    ensures SumFor(a + b, id) == SumFor(a, id) + SumFor(b, id)
  {
    if b == [] {
      assert a + b == a;
    } else {
      SumForConcat(a, b[..|b| - 1], id);
      assert (a + b)[..|a + b| - 1] == a + b[..|b| - 1];
    }
  }

  lemma {:induction false} SumConcat(a: seq<Digest>, b: seq<Digest>)
    ensures Sum(a + b) == Sum(a) + Sum(b)
  {
    if b == [] {
      assert a + b == a;
    } else {
      SumConcat(a, b[..|b| - 1]);
      assert (a + b)[..|a + b| - 1] == a + b[..|b| - 1];
    }
  }

  /** Digests that list a map say of each account what the map holds for it. */
  lemma {:induction false} SumForIsCount(digests: seq<Digest>, m: map<Account, Entry>, id: Account)
    requires Lists(digests, m)
    ensures SumFor(digests, id) == if id in m then m[id].count else 0
    decreases |digests|
  {
    if digests != [] {
      var n := |digests| - 1;
      var d := digests[n];
      ListsWithoutLast(digests, m);
      SumForIsCount(digests[..n], m - {d.recipient}, id);
    }
  }

  lemma ListsWithoutLast(digests: seq<Digest>, m: map<Account, Entry>)
    requires Lists(digests, m) && digests != []
    ensures Lists(digests[..|digests| - 1], m - {digests[|digests| - 1].recipient})
  {
    var n := |digests| - 1;
    var rest, m' := digests[..n], m - {digests[n].recipient};
    forall id | id in m' ensures exists i :: 0 <= i < |rest| && rest[i].recipient == id {
      var i :| 0 <= i < |digests| && digests[i].recipient == id;
      assert rest[i].recipient == id;
    }
  }

  lemma ListsSnoc(digests: seq<Digest>, m: map<Account, Entry>, id: Account, e: Entry)
    requires Lists(digests, m) && id !in m
    ensures Lists(digests + [Digest(id, e.count)], m[id := e])
  {
    var digests', m' := digests + [Digest(id, e.count)], m[id := e];
    forall k | k in m' ensures exists i :: 0 <= i < |digests'| && digests'[i].recipient == k {
      if k == id {
        assert digests'[|digests|].recipient == k;
      } else {
        var i :| 0 <= i < |digests| && digests[i].recipient == k;
        assert digests'[i].recipient == k;
      }
    }
  }

  lemma {:induction false} DueAndRest(c: Config, items: map<Account, Entry>, now: int)
    requires c.Valid()
    ensures Total(items) == Total(Due(c, items, now)) + Total(Rest(c, items, now))
    decreases |items|
  {
    if items == map[] {
      assert Due(c, items, now) == map[] && Rest(c, items, now) == map[];
    } else {
      var id :| id in items;
      var less := items - {id};
      Shrinks(items, id);
      DueAndRest(c, less, now);
      TotalWithout(items, id);
      var due, rest := Due(c, items, now), Rest(c, items, now);
      if Expired(c, id, items[id], now) {
        TotalWithout(due, id);
        assert due - {id} == Due(c, less, now) && rest == Rest(c, less, now);
      } else {
        TotalWithout(rest, id);
        assert rest - {id} == Rest(c, less, now) && due == Due(c, less, now);
      }
    }
  }

  /** With the entries in `left` still to be looked at: those emitted so far, or those still in the map. */
  function Handled(c: Config, items: map<Account, Entry>, left: set<Account>, now: int, emitted: bool)
      : map<Account, Entry>
    requires c.Valid()
  {
    map id | id in items && (id !in left && Expired(c, id, items[id], now)) == emitted :: items[id]
  }

  lemma HandledOne(c: Config, items: map<Account, Entry>, left: set<Account>, now: int, id: Account)
    requires c.Valid() && id in left && left <= items.Keys
    ensures id !in Handled(c, items, left, now, true)
    ensures id in Handled(c, items, left, now, false) && Handled(c, items, left, now, false)[id] == items[id]
    ensures var gone, kept := Handled(c, items, left, now, true), Handled(c, items, left, now, false);
            var due := Expired(c, id, items[id], now);
            && Handled(c, items, left - {id}, now, true) == (if due then gone[id := items[id]] else gone)
            && Handled(c, items, left - {id}, now, false) == (if due then kept - {id} else kept)
  {
    hide Expired;
  }

  lemma EmptyList()
    ensures Lists([], map[])
  {
  }

  // ---------- the queue ----------

  class Queue {
    const capacity: nat
    var jobs: seq<Job>
    var dropped: nat

    constructor (capacity: int)
      ensures this.capacity == (if capacity <= 0 then 65536 else capacity) && jobs == [] && dropped == 0
    {
      this.capacity := if capacity <= 0 then 65536 else capacity;
      jobs, dropped := [], 0;
    }

    /** Never waits: a full queue drops the job and counts the drop. */
    method Enqueue(job: Job) returns (ok: bool)
      requires |jobs| <= capacity
      modifies this
      ensures |jobs| <= capacity
      ensures ok == (|old(jobs)| < capacity)
      ensures jobs == old(jobs) + (if ok then [job] else []) && dropped == old(dropped) + (if ok then 0 else 1)
    {
      if |jobs| < capacity {
        jobs := jobs + [job];
        return true;
      }
      dropped := dropped + 1;
      ok := false;
    }

    /** A receive that does not wait. */
    method Receive() returns (job: Option<Job>)
      modifies `jobs
      ensures old(jobs) == (if job.Some? then [job.value] + jobs else [])
      ensures job.None? ==> jobs == []
    {
      if jobs == [] {
        return None;
      }
      job := Some(jobs[0]);
      jobs := jobs[1..];
    }
  }

  // ---------- the coalescer ----------

  class Coalescer {
    const config: Config
    var items: map<Account, Entry>
    var staleDrops: nat
    var fullDrops: nat
    var digestsSent: nat

    /** Bounded, and no entry without a count. */
    predicate Valid()
      reads this
    {
      config.Valid() && |items| <= config.maxRecipients && forall id | id in items :: items[id].count > 0
    }

    constructor (defaultWindow: int, maxAge: int, maxRecipients: int, windows: Account -> int)
      ensures Valid() && items == map[] && config.windows == windows
      ensures config.maxAge == (if maxAge <= 0 then 30_000_000_000 else maxAge)
      ensures config.defaultWindow == (if defaultWindow <= 0 then 60_000_000_000 else defaultWindow)
      ensures config.maxRecipients == (if maxRecipients <= 0 then 100_000 else maxRecipients)
    {
      config := Config(if defaultWindow <= 0 then 60_000_000_000 else defaultWindow,
                       if maxAge <= 0 then 30_000_000_000 else maxAge,
                       if maxRecipients <= 0 then 100_000 else maxRecipients, windows);
      items := map[];
      staleDrops, fullDrops, digestsSent := 0, 0, 0;
    }

    method AddAt(job: Job, now: int) returns (ok: bool)
      requires Valid()
      modifies `items, `staleDrops, `fullDrops
      ensures Valid()
      ensures var outcome := Decide(config, old(items), job, now);
              && ok == outcome.Ingested?
              && items == (if ok then Accumulated(old(items), job, now) else old(items))
              && staleDrops == old(staleDrops) + (if outcome.Stale? then 1 else 0)
              && fullDrops == old(fullDrops) + (if outcome.Full? then 1 else 0)
      ensures ok <==>
        (job.enqueuedAt.None? || now - job.enqueuedAt.value <= config.maxAge) &&
        (job.recipient in old(items) || |old(items)| < config.maxRecipients)
      ensures staleDrops > old(staleDrops) <==> job.enqueuedAt.Some? && now - job.enqueuedAt.value > config.maxAge
      ensures !ok ==> items == old(items)
      ensures ok && job.recipient !in old(items) ==> items == old(items)[job.recipient := Entry(1, now, now)]
      ensures ok && job.recipient in old(items) ==>
                var e := old(items)[job.recipient];
                items == old(items)[job.recipient := Entry(e.count + 1, e.firstSeen, now)]
    {
      if job.enqueuedAt.Some? && now - job.enqueuedAt.value > config.maxAge {
        staleDrops := staleDrops + 1;
        return false;
      }
      var id := job.recipient;
      if id !in items {
        if |items| >= config.maxRecipients {
          fullDrops := fullDrops + 1;
          return false;
        }
        assert items[id := Entry(1, now, now)].Keys == items.Keys + {id};
        items := items[id := Entry(1, now, now)];
        return true;
      }
      var e := items[id];
      e := e.(count := e.count + 1);
      e := e.(lastSeen := now);
      assert items[id := e].Keys == items.Keys;
      items := items[id := e];
      ok := true;
    }

    method GetAndClearPending(account: Account) returns (n: nat)
      requires Valid()
      modifies `items
      ensures Valid() && items == old(items) - {account} && n + Total(items) == old(Total(items))
      ensures n == if account in old(items) then old(items)[account].count else 0
    {
      if account !in items || items[account].count == 0 {
        assert items == items - {account};
        return 0;
      }
      n := items[account].count;
      TotalWithout(items, account);
      Shrinks(items, account);
      items := items - {account};
    }

    method ForceFlush(account: Account) returns (digest: Option<Digest>)
      requires Valid()
      modifies `items, `digestsSent
      ensures Valid() && items == old(items) - {account}
      ensures digest == if account in old(items) then Some(Digest(account, old(items)[account].count)) else None
      ensures digestsSent == old(digestsSent) + (if digest.Some? then 1 else 0)
      ensures (if digest.Some? then digest.value.count else 0) + Total(items) == old(Total(items))
    {
      if account !in items || items[account].count == 0 {
        assert items == items - {account};
        return None;
      }
      digest := Some(Digest(account, items[account].count));
      TotalWithout(items, account);
      Shrinks(items, account);
      items := items - {account};
      digestsSent := digestsSent + 1;
    }

    /** Emits and removes the entries whose window has passed, in the map's order. */
    method Flush(now: int) returns (digests: seq<Digest>)
      requires Valid()
      modifies `items, `digestsSent
      ensures Valid() && items == Rest(config, old(items), now) && Lists(digests, Due(config, old(items), now))
      ensures digestsSent == old(digestsSent) + |digests| && Sum(digests) + Total(items) == old(Total(items))
      ensures forall id :: id in items <==>
                id in old(items) &&
                now - old(items)[id].firstSeen <
                  (if config.windows(id) > 0 then config.windows(id) else config.defaultWindow)
      ensures forall id | id in items :: items[id] == old(items)[id]
    {
      hide Total, Lists, Sum;
      ghost var before, sent := items, digestsSent;
      var left := items.Keys;
      ghost var gone: map<Account, Entry> := map[];
      digests := [];
      EmptyList();
      while left != {}
        invariant left <= before.Keys
        invariant gone == Handled(config, before, left, now, true)
        invariant items == Handled(config, before, left, now, false)
        invariant Lists(digests, gone) && digestsSent == sent + |digests|
        decreases |left|
      {
        var id :| id in left;
        var e := items[id];
        HandledOne(config, before, left, now, id);
        left := left - {id};
        var window := config.defaultWindow;
        if config.windows(id) > 0 {
          window := config.windows(id);
        }
        if now - e.firstSeen >= window {
          ListsSnoc(digests, gone, id, e);
          gone := gone[id := e];
          digests := digests + [Digest(id, e.count)];
          items := items - {id};
          digestsSent := digestsSent + 1;
        }
      }
      assert gone == Due(config, before, now) && items == Rest(config, before, now);
      RestIsSmaller(config, before, now);
      DueAndRest(config, before, now);
      SumIsTotal(digests, gone);
    }

    method FlushAll() returns (digests: seq<Digest>)
      requires Valid()
      modifies `items, `digestsSent
      ensures Valid() && items == map[] && Lists(digests, old(items))
      ensures digestsSent == old(digestsSent) + |digests| && Sum(digests) == old(Total(items))
    {
      hide Total;
      ghost var sent := digestsSent;
      var left := items.Keys;
      ghost var gone: map<Account, Entry> := map[];
      digests := [];
      while left != {}
        invariant left <= items.Keys && items == old(items)
        invariant gone == map id | id in items && id !in left :: items[id]
        invariant Lists(digests, gone) && digestsSent == sent + |digests|
        decreases |left|
      {
        var id :| id in left;
        left := left - {id};
        ListsSnoc(digests, gone, id, items[id]);
        gone := gone[id := items[id]];
        digests := digests + [Digest(id, items[id].count)];
        digestsSent := digestsSent + 1;
      }
      assert gone == items;
      SumIsTotal(digests, gone);
      items := map[];
    }
  }

  lemma {:induction false} RestIsSmaller(c: Config, items: map<Account, Entry>, now: int)
    requires c.Valid()
    ensures |Rest(c, items, now)| <= |items|
    decreases |items|
  {
    if items == map[] {
      assert Rest(c, items, now) == map[];
    } else {
      var id :| id in items;
      var less, rest := items - {id}, Rest(c, items, now);
      Shrinks(items, id);
      RestIsSmaller(c, less, now);
      if Expired(c, id, items[id], now) {
        assert rest == Rest(c, less, now);
      } else {
        assert rest == Rest(c, less, now)[id := items[id]];
        assert rest.Keys == Rest(c, less, now).Keys + {id};
      }
    }
  }
}
