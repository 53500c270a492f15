/** The delivery pipeline over whole runs: conservation of pings and the spacing of digests. */
module Delivery {
  import opened Coalescing
  import opened Wrappers

  /** What has become of the pings so far: for whom one was accepted, and for whom it was dropped as stale or over
      capacity; the digests emitted; the counts given out on asking. Refused pings are only counted. */
  datatype Ledger = Ledger(accepted: seq<Account>, refused: nat, stale: seq<Account>, full: seq<Account>,
                           digests: seq<Digest>, given: seq<Digest>)

  /** A digest that the periodic flush emitted. */
  datatype Flushed = Flushed(recipient: Account, time: int)

  datatype State = State(queue: seq<Job>, hand: Option<Job>, items: map<Account, Entry>, ledger: Ledger,
                         flushed: seq<Flushed>, clock: int)

  /** The steps of handlers, of the two pumps and of shutting down. A pump takes a job off the queue in one step
      and accumulates it in another. */
  datatype Event =
    | Enqueue(job: Job)
    | Receive
    | Ingest(now: int)
    | Tick(now: int)
    | Force(account: Account)
    | Pending(account: Account)
    | Drain

  function Count(items: map<Account, Entry>, account: Account): nat {
    if account in items then items[account].count else 0
  }

  function Log(digests: seq<Digest>, now: int): seq<Flushed> {
    seq(|digests|, i requires 0 <= i < |digests| => Flushed(digests[i].recipient, now))
  }

  /** `clock` is the latest time read so far. Accumulating reads the time, which never runs back; a tick carries
      the time it was sent, which may lie before jobs accumulated since, or even before an earlier tick. */
  ghost predicate Step(c: Config, capacity: nat, s: State, e: Event, s': State)
    requires c.Valid()
  {
    match e
    case Enqueue(job) =>
      if |s.queue| < capacity
      then s' == s.(queue := s.queue + [job], ledger := s.ledger.(accepted := s.ledger.accepted + [job.recipient]))
      else s' == s.(ledger := s.ledger.(refused := s.ledger.refused + 1))
    case Receive => s.hand.None? && s.queue != [] && s' == s.(hand := Some(s.queue[0]), queue := s.queue[1..])
    case Ingest(now) => s.hand.Some? && s.clock <= now && s' == AfterIngest(c, s, s.hand.value, now)
    case Tick(now) => exists digests :: Lists(digests, Due(c, s.items, now)) && s' == AfterTick(c, s, digests, now)
    case Force(account) =>
      s' == s.(items := s.items - {account},
               ledger := s.ledger.(digests := s.ledger.digests + Held(s.items, account)))
    case Pending(account) =>
      s' == s.(items := s.items - {account}, ledger := s.ledger.(given := s.ledger.given + Held(s.items, account)))
    case Drain => exists digests ::
      Lists(digests, s.items) &&
      s' == s.(items := map[], ledger := s.ledger.(digests := s.ledger.digests + digests))
  }

  /** The account's count as a digest, if there is one. */
  function Held(items: map<Account, Entry>, account: Account): seq<Digest> {
    if account in items then [Digest(account, items[account].count)] else []
  }

  function AfterIngest(c: Config, s: State, job: Job, now: int): State {
    var t := s.(hand := None, clock := now);
    match Decide(c, s.items, job, now)
    case Stale => t.(ledger := s.ledger.(stale := s.ledger.stale + [job.recipient]))
    case Full => t.(ledger := s.ledger.(full := s.ledger.full + [job.recipient]))
    case Ingested => t.(items := Accumulated(s.items, job, now))
  }

  function Max(a: int, b: int): int {
    if a < b then b else a
  }

  function AfterTick(c: Config, s: State, digests: seq<Digest>, now: int): State
    requires c.Valid()
  {
    s.(items := Rest(c, s.items, now), flushed := s.flushed + Log(digests, now), clock := Max(s.clock, now),
       ledger := s.ledger.(digests := s.ledger.digests + digests))
  }

  // ---------- conservation ----------

  /** Every accepted ping is queued, in hand, accumulated, dropped, or in a count given out. */
  ghost predicate Conserved(s: State) {
    |s.ledger.accepted| ==
      |s.queue| + (if s.hand.Some? then 1 else 0) + Total(s.items)
      + |s.ledger.stale| + |s.ledger.full| + Sum(s.ledger.digests) + Sum(s.ledger.given)
  }

  function Times(accounts: seq<Account>, id: Account): nat {
    if accounts == [] then 0
    else Times(accounts[..|accounts| - 1], id) + (if accounts[|accounts| - 1] == id then 1 else 0)
  }

  function JobsFor(jobs: seq<Job>, id: Account): nat {
    if jobs == [] then 0
    else JobsFor(jobs[..|jobs| - 1], id) + (if jobs[|jobs| - 1].recipient == id then 1 else 0)
  }

  /** So for each account by itself: what was accepted for it is queued, in hand or accumulated for it, was dropped as
      its own, or went to it in digests and answers. */
  predicate ConservedFor(s: State, id: Account) {
    Times(s.ledger.accepted, id) ==
      JobsFor(s.queue, id) + (if s.hand.Some? && s.hand.value.recipient == id then 1 else 0) + Count(s.items, id)
      + Times(s.ledger.stale, id) + Times(s.ledger.full, id)
      + SumFor(s.ledger.digests, id) + SumFor(s.ledger.given, id)
  }

  lemma TimesSnoc(accounts: seq<Account>, a: Account, id: Account)
    ensures Times(accounts + [a], id) == Times(accounts, id) + (if a == id then 1 else 0)
  {
    assert (accounts + [a])[..|accounts|] == accounts;
  }

  lemma JobsSnoc(jobs: seq<Job>, job: Job, id: Account)
    ensures JobsFor(jobs + [job], id) == JobsFor(jobs, id) + (if job.recipient == id then 1 else 0)
  {
    assert (jobs + [job])[..|jobs|] == jobs;
  }

  lemma {:induction false} JobsTail(jobs: seq<Job>, id: Account)
    requires jobs != []
    ensures JobsFor(jobs, id) == (if jobs[0].recipient == id then 1 else 0) + JobsFor(jobs[1..], id)
  {
    var n := |jobs| - 1;
    if n > 0 {
      JobsTail(jobs[..n], id);
      assert jobs[1..][..n - 1] == jobs[..n][1..];
    } else {
      assert jobs[..0] == [];
    }
  }

  lemma HeldIsCount(items: map<Account, Entry>, account: Account, id: Account)
    ensures SumFor(Held(items, account), id) == (if id == account then Count(items, account) else 0)
    ensures Sum(Held(items, account)) == Count(items, account)
  {
    if account in items {
      var d := Held(items, account);
      assert d[..0] == [];
    }
  }

  lemma StepConservesFor(c: Config, capacity: nat, s: State, e: Event, s': State, id: Account)
    requires c.Valid() && ConservedFor(s, id) && Step(c, capacity, s, e, s')
    ensures ConservedFor(s', id)
  {
    hide Lists, Times, JobsFor, SumFor, Held;
    match e
    case Enqueue(job) =>
      TimesSnoc(s.ledger.accepted, job.recipient, id);
      JobsSnoc(s.queue, job, id);
    case Receive => JobsTail(s.queue, id);
    case Ingest(now) =>
      TimesSnoc(s.ledger.stale, s.hand.value.recipient, id);
      TimesSnoc(s.ledger.full, s.hand.value.recipient, id);
    case Tick(now) =>
      var digests :| Lists(digests, Due(c, s.items, now)) && s' == AfterTick(c, s, digests, now);
      SumForConcat(s.ledger.digests, digests, id);
      SumForIsCount(digests, Due(c, s.items, now), id);
    case Force(account) =>
      SumForConcat(s.ledger.digests, Held(s.items, account), id);
      HeldIsCount(s.items, account, id);
    case Pending(account) =>
      SumForConcat(s.ledger.given, Held(s.items, account), id);
      HeldIsCount(s.items, account, id);
    case Drain =>
      var digests :| Lists(digests, s.items) && s'.ledger.digests == s.ledger.digests + digests;
      SumForConcat(s.ledger.digests, digests, id);
      SumForIsCount(digests, s.items, id);
  }

  lemma RemovedTotal(items: map<Account, Entry>, account: Account)
    ensures Total(items) == Count(items, account) + Total(items - {account})
  {
    if account in items { TotalWithout(items, account); } else { assert items - {account} == items; }
  }

  lemma StepConserves(c: Config, capacity: nat, s: State, e: Event, s': State)
    requires c.Valid() && Conserved(s) && Step(c, capacity, s, e, s')
    ensures Conserved(s')
  {
    hide Total, Sum, Lists, Due, Rest, Accumulated, Decide, Held;
    match e
    case Enqueue(_) =>
    case Receive =>
    case Ingest(now) => AccumulatedTotal(s.items, s.hand.value, now);
    case Tick(now) =>
      var digests :| Lists(digests, Due(c, s.items, now)) && s' == AfterTick(c, s, digests, now);
      SumConcat(s.ledger.digests, digests);
      SumIsTotal(digests, Due(c, s.items, now));
      DueAndRest(c, s.items, now);
    case Force(account) =>
      RemovedTotal(s.items, account);
      SumConcat(s.ledger.digests, Held(s.items, account));
      HeldIsCount(s.items, account, account);
    case Pending(account) =>
      RemovedTotal(s.items, account);
      SumConcat(s.ledger.given, Held(s.items, account));
      HeldIsCount(s.items, account, account);
    case Drain =>
      var digests :| Lists(digests, s.items) && s'.ledger.digests == s.ledger.digests + digests;
      SumConcat(s.ledger.digests, digests);
      SumIsTotal(digests, s.items);
      EmptyTotal();
  }

  lemma EmptyTotal()
    ensures Total(map[]) == 0
  {
  }

  // ---------- spacing ----------

  /** Two flushed digests of one recipient are at least its window apart. */
  predicate Spaced(c: Config, log: seq<Flushed>)
    requires c.Valid()
  {
    forall i, j | 0 <= i < j < |log| && log[i].recipient == log[j].recipient ::
      log[j].time - log[i].time >= c.Window(log[i].recipient)
  }

  /** An accumulated entry began no earlier than the recipient's last flush, and no clock runs ahead. */
  predicate Fresh(s: State) {
    && (forall id | id in s.items :: s.items[id].firstSeen <= s.clock)
    && (forall i | 0 <= i < |s.flushed| :: s.flushed[i].time <= s.clock)
    && (forall i | 0 <= i < |s.flushed| && s.flushed[i].recipient in s.items ::
          s.flushed[i].time <= s.items[s.flushed[i].recipient].firstSeen)
  }

  lemma TickSpaces(c: Config, s: State, digests: seq<Digest>, now: int)
    requires c.Valid() && Spaced(c, s.flushed) && Fresh(s)
    requires Lists(digests, Due(c, s.items, now))
    ensures Spaced(c, s.flushed + Log(digests, now))
  {
    var n, log := |s.flushed|, s.flushed + Log(digests, now);
    assert forall i | n <= i < |log| :: log[i] == Flushed(digests[i - n].recipient, now);
    assert forall i | n <= i < |log| :: log[i].recipient in Due(c, s.items, now);
    forall i, j | 0 <= i < j < |log| && log[i].recipient == log[j].recipient
      ensures log[j].time - log[i].time >= c.Window(log[i].recipient)
    {
    }
  }

  lemma StepSpaces(c: Config, capacity: nat, s: State, e: Event, s': State)
    requires c.Valid() && Step(c, capacity, s, e, s') && Spaced(c, s.flushed) && Fresh(s)
    ensures Spaced(c, s'.flushed) && Fresh(s')
  {
    hide Total, Sum, Lists, Spaced;
    match e
    case Enqueue(_) =>
    case Receive =>
    case Ingest(now) =>
    case Tick(now) =>
      var digests :| Lists(digests, Due(c, s.items, now)) && s' == AfterTick(c, s, digests, now);
      TickSpaces(c, s, digests, now);
      TickIsFresh(c, s, digests, now);
    case Force(account) =>
    case Pending(account) =>
    case Drain =>
  }

  lemma TickIsFresh(c: Config, s: State, digests: seq<Digest>, now: int)
    requires c.Valid() && Fresh(s) && Lists(digests, Due(c, s.items, now))
    ensures Fresh(AfterTick(c, s, digests, now))
  {
    hide Sum;
    var n, s' := |s.flushed|, AfterTick(c, s, digests, now);
    assert forall i | n <= i < |s'.flushed| :: s'.flushed[i].recipient == digests[i - n].recipient;
    assert forall i | n <= i < |s'.flushed| :: s'.flushed[i].recipient in Due(c, s.items, now);
  }

  // ---------- runs ----------

  predicate Initial(s: State) {
    s.queue == [] && s.hand == None && s.items == map[] && s.ledger == Ledger([], 0, [], [], [], []) && s.flushed == []
  }

  ghost predicate Run(c: Config, capacity: nat, states: seq<State>, events: seq<Event>) {
    && c.Valid() && |states| == |events| + 1 && Initial(states[0])
    && forall k | 0 <= k < |events| :: Step(c, capacity, states[k], events[k], states[k + 1])
  }

  /** Main result over every interleaving: nothing is lost uncounted and nothing counted twice, in all and for each
      account by itself, and flushed digests are spaced. */
  lemma {:induction false} RunHolds(c: Config, capacity: nat, states: seq<State>, events: seq<Event>, k: nat)
    requires Run(c, capacity, states, events) && k < |states|
    ensures Conserved(states[k]) && Spaced(c, states[k].flushed) && Fresh(states[k])
    ensures forall id :: ConservedFor(states[k], id)
  {
    hide Step, Total, Spaced, Fresh, Conserved, ConservedFor;
    if k == 0 {
      InitialHolds(c, states[0]);
    } else {
      RunHolds(c, capacity, states, events, k - 1);
      assert Step(c, capacity, states[k - 1], events[k - 1], states[k - 1 + 1]);
      StepConserves(c, capacity, states[k - 1], events[k - 1], states[k]);
      forall id ensures ConservedFor(states[k], id) {
        StepConservesFor(c, capacity, states[k - 1], events[k - 1], states[k], id);
      }
      StepSpaces(c, capacity, states[k - 1], events[k - 1], states[k]);
    }
  }

  lemma InitialHolds(c: Config, s: State)
    requires c.Valid() && Initial(s)
    ensures Conserved(s) && Spaced(c, s.flushed) && Fresh(s)
    ensures forall id :: ConservedFor(s, id)
  {
    EmptyTotal();
  }

  // ---------- how many digests an interval can hold ----------

  function FlushedIn(log: seq<Flushed>, r: Account, t1: int, t2: int): nat {
    if log == [] then 0
    else
      var f := log[|log| - 1];
      FlushedIn(log[..|log| - 1], r, t1, t2) + (if f.recipient == r && t1 <= f.time <= t2 then 1 else 0)
  }

  /** The time of the last digest of `r` in the interval, or `t1`. */
  function LastIn(log: seq<Flushed>, r: Account, t1: int, t2: int): (t: int)
    requires t1 <= t2
    ensures t1 <= t <= t2
    ensures FlushedIn(log, r, t1, t2) > 0 ==> exists i :: 0 <= i < |log| && log[i] == Flushed(r, t)
  {
    if log == [] then t1
    else
      var n := |log| - 1;
      var t := LastIn(log[..n], r, t1, t2);
      if log[n].recipient == r && t1 <= log[n].time <= t2 then
        (assert log[n] == Flushed(r, log[n].time);
         log[n].time)
      else
        t
  }

  lemma {:induction false} SpreadOut(c: Config, log: seq<Flushed>, r: Account, t1: int, t2: int)
    requires c.Valid() && Spaced(c, log) && t1 <= t2
    ensures FlushedIn(log, r, t1, t2) > 0 ==>
      (FlushedIn(log, r, t1, t2) - 1) * c.Window(r) <= LastIn(log, r, t1, t2) - t1
  {
    if log != [] {
      var n := |log| - 1;
      var rest, w := log[..n], c.Window(r);
      assert Spaced(c, rest) by { assert forall i | 0 <= i < n :: rest[i] == log[i]; }
      SpreadOut(c, rest, r, t1, t2);
      var k := FlushedIn(rest, r, t1, t2);
      if log[n].recipient == r && t1 <= log[n].time <= t2 && k > 0 {
        var i :| 0 <= i < n && rest[i] == Flushed(r, LastIn(rest, r, t1, t2));
        assert log[i] == rest[i];
        assert log[n].time - log[i].time >= w;
        OneMore(k, w);
      }
    }
  }

  lemma OneMore(k: int, w: int)
    ensures (k - 1) * w + w == k * w
  {
  }

  /** In every run, an interval of length `t2 - t1` holds at most one flushed digest of a recipient more than the
      number of whole windows in it. */
  lemma DigestsPerInterval(c: Config, capacity: nat, states: seq<State>, events: seq<Event>, r: Account, t1: int,
                           t2: int)
    requires Run(c, capacity, states, events) && t1 <= t2
    ensures FlushedIn(states[|events|].flushed, r, t1, t2) <= (t2 - t1) / c.Window(r) + 1
  {
    hide Step, Total, Spaced, Fresh, Conserved, FlushedIn, LastIn;
    RunHolds(c, capacity, states, events, |events|);
    var log, w := states[|events|].flushed, c.Window(r);
    SpreadOut(c, log, r, t1, t2);
    var n := FlushedIn(log, r, t1, t2);
    if n > 0 {
      WholeWindows(n - 1, w, t2 - t1);
    }
  }

  lemma WholeWindows(k: nat, w: int, t: nat)
    requires w > 0 && k * w <= t
    ensures k <= t / w
  {
    if t / w < k {
      Quotients(t, w);
      Multiply(t / w + 1, k, w);
      assert false;
    }
  }

  lemma Quotients(t: nat, w: int)
    requires w > 0
    ensures t < (t / w + 1) * w
  {
    assert t == (t / w) * w + t % w;
  }

  lemma Multiply(a: int, b: int, w: int)
    requires a <= b && w > 0
    ensures a * w <= b * w
  {
  }

  // ---------- the assembled pipeline ----------

  class Assembly {
    const queue: Queue
    const coalescer: Coalescer
    /** What was handed to the push pool, in order. */
    var pushed: seq<Digest>
    var inHand: Option<Job>
    ghost var ledger: Ledger
    ghost var flushed: seq<Flushed>
    ghost var clock: int

    ghost function Now(): State
      reads this, queue, coalescer
    {
      State(queue.jobs, inHand, coalescer.items, ledger, flushed, clock)
    }

    ghost predicate Valid()
      reads this, queue, coalescer
    {
      && |queue.jobs| <= queue.capacity && coalescer.Valid()
      && Conserved(Now()) && Spaced(coalescer.config, flushed) && Fresh(Now())
      && AllConserved(Now()) && pushed == ledger.digests
    }

    constructor (capacity: int, defaultWindow: int, maxAge: int, maxRecipients: int, windows: Account -> int, now: int)
      ensures Valid() && fresh(queue) && fresh(coalescer) && Initial(Now()) && pushed == []
    {
      queue := new Queue(capacity);
      coalescer := new Coalescer(defaultWindow, maxAge, maxRecipients, windows);
      pushed, inHand := [], None;
      ledger, flushed, clock := Ledger([], 0, [], [], [], []), [], now;
      new;
      InitialHolds(coalescer.config, Now());
    }

    /** The ping handler's hand-over. */
    method Submit(job: Job) returns (ok: bool)
      requires Valid()
      modifies this, queue
      ensures Valid() && Step(coalescer.config, queue.capacity, old(Now()), Enqueue(job), Now())
      ensures ok == (|old(queue.jobs)| < queue.capacity)
    {
      hide Conserved, Spaced, Fresh, AllConserved;
      ghost var s := Now();
      ok := queue.Enqueue(job);
      ledger := if ok then ledger.(accepted := ledger.accepted + [job.recipient])
                else ledger.(refused := ledger.refused + 1);
      StepConserves(coalescer.config, queue.capacity, s, Enqueue(job), Now());
      StepConservesAll(coalescer.config, queue.capacity, s, Enqueue(job), Now());
      StepSpaces(coalescer.config, queue.capacity, s, Enqueue(job), Now());
    }

    /** Pump 1, first half. */
    method PumpReceive() returns (received: bool)
      requires Valid() && inHand.None?
      modifies this, queue
      ensures Valid() && received == inHand.Some?
      ensures if received then Step(coalescer.config, queue.capacity, old(Now()), Receive, Now())
              else Now() == old(Now()) && queue.jobs == []
      ensures pushed == old(pushed) && |queue.jobs| == |old(queue.jobs)| - (if received then 1 else 0)
      ensures ledger == old(ledger) && flushed == old(flushed) && clock == old(clock)
    {
      hide Conserved, Spaced, Fresh, AllConserved;
      ghost var s := Now();
      inHand := queue.Receive();
      received := inHand.Some?;
      if received {
        StepConserves(coalescer.config, queue.capacity, s, Receive, Now());
        StepConservesAll(coalescer.config, queue.capacity, s, Receive, Now());
        StepSpaces(coalescer.config, queue.capacity, s, Receive, Now());
      }
    }

    /** Pump 1, second half. */
    method PumpIngest(now: int)
      requires Valid() && inHand.Some? && clock <= now
      modifies this, coalescer
      ensures Valid() && Step(coalescer.config, queue.capacity, old(Now()), Ingest(now), Now())
      ensures pushed == old(pushed) && inHand.None? && clock == now && flushed == old(flushed)
      ensures ledger.accepted == old(ledger.accepted) && ledger.given == old(ledger.given)
    {
      hide Conserved, Spaced, Fresh, AllConserved;
      ghost var s, outcome := Now(), Decide(coalescer.config, coalescer.items, inHand.value, now);
      ghost var recipient := inHand.value.recipient;
      var ok := coalescer.AddAt(inHand.value, now);
      inHand := None;
      clock := now;
      ledger := if outcome.Stale? then ledger.(stale := ledger.stale + [recipient])
                else if outcome.Full? then ledger.(full := ledger.full + [recipient]) else ledger;
      StepConserves(coalescer.config, queue.capacity, s, Ingest(now), Now());
      StepConservesAll(coalescer.config, queue.capacity, s, Ingest(now), Now());
      StepSpaces(coalescer.config, queue.capacity, s, Ingest(now), Now());
    }

    /** Pump 2, at a tick sent at `now`. */
    method FlushTick(now: int)
      requires Valid()
      modifies this, coalescer
      ensures Valid() && Step(coalescer.config, queue.capacity, old(Now()), Tick(now), Now())
      ensures old(pushed) <= pushed && Lists(pushed[|old(pushed)|..], Due(coalescer.config, old(coalescer.items), now))
    {
      hide Conserved, Spaced, Fresh, AllConserved, Lists, Total, Sum;
      ghost var s := Now();
      var digests := coalescer.Flush(now);
      pushed := pushed + digests;
      flushed := flushed + Log(digests, now);
      clock := Max(clock, now);
      ledger := ledger.(digests := ledger.digests + digests);
      assert Now() == AfterTick(coalescer.config, s, digests, now);
      StepConserves(coalescer.config, queue.capacity, s, Tick(now), Now());
      StepConservesAll(coalescer.config, queue.capacity, s, Tick(now), Now());
      StepSpaces(coalescer.config, queue.capacity, s, Tick(now), Now());
    }

    /** Emits one account's entry at once, whatever its window. */
    method ForceFlush(account: Account)
      requires Valid()
      modifies this, coalescer
      ensures Valid() && Step(coalescer.config, queue.capacity, old(Now()), Force(account), Now())
      ensures pushed == old(pushed) + (if account in old(coalescer.items)
                                       then [Digest(account, old(coalescer.items)[account].count)] else [])
    {
      hide Conserved, Spaced, Fresh, AllConserved, Total;
      ghost var s := Now();
      var digest := coalescer.ForceFlush(account);
      if digest.Some? {
        pushed := pushed + [digest.value];
      }
      ledger := ledger.(digests := ledger.digests + Held(s.items, account));
      StepConserves(coalescer.config, queue.capacity, s, Force(account), Now());
      StepConservesAll(coalescer.config, queue.capacity, s, Force(account), Now());
      StepSpaces(coalescer.config, queue.capacity, s, Force(account), Now());
    }

    /** What an account that asks for its pending count is given. */
    method TakePending(account: Account) returns (n: nat)
      requires Valid()
      modifies this, coalescer
      ensures Valid() && Step(coalescer.config, queue.capacity, old(Now()), Pending(account), Now())
      ensures n == Count(old(coalescer.items), account) && pushed == old(pushed)
    {
      hide Conserved, Spaced, Fresh, AllConserved, Total;
      ghost var s := Now();
      n := coalescer.GetAndClearPending(account);
      ledger := ledger.(given := ledger.given + Held(s.items, account));
      StepConserves(coalescer.config, queue.capacity, s, Pending(account), Now());
      StepConservesAll(coalescer.config, queue.capacity, s, Pending(account), Now());
      StepSpaces(coalescer.config, queue.capacity, s, Pending(account), Now());
    }

    method DrainQueue(now: int)
      requires Valid() && inHand.None? && clock <= now
      modifies this, queue, coalescer
      ensures Valid() && queue.jobs == [] && inHand.None? && clock <= now
      ensures ledger.accepted == old(ledger.accepted) && ledger.given == old(ledger.given)
      ensures flushed == old(flushed)
    {
      hide Conserved, Spaced, Fresh, AllConserved, Step;
      var more := PumpReceive();
      while more
        invariant Valid() && inHand.Some? == more && clock <= now && (!more ==> queue.jobs == [])
        invariant ledger.accepted == old(ledger.accepted) && ledger.given == old(ledger.given)
        invariant flushed == old(flushed)
        decreases |queue.jobs| + (if more then 1 else 0)
      {
        PumpIngest(now);
        more := PumpReceive();
      }
    }

    /** Shutting down, with the pumps stopped: the queue is drained into the accumulator, and everything accumulated
        is pushed. Every ping ever accepted is then dropped with a count, pushed, or given out as pending. */
    method Close(now: int)
      requires Valid() && inHand.None? && clock <= now
      modifies this, queue, coalescer
      ensures Valid() && queue.jobs == [] && inHand.None? && coalescer.items == map[]
      ensures ledger.accepted == old(ledger.accepted) && ledger.given == old(ledger.given)
      ensures |ledger.accepted| == |ledger.stale| + |ledger.full| + Sum(pushed) + Sum(ledger.given)
      ensures forall id :: Times(ledger.accepted, id) ==
                Times(ledger.stale, id) + Times(ledger.full, id) + SumFor(pushed, id) + SumFor(ledger.given, id)
      ensures flushed == old(flushed)
    {
      hide Conserved, Spaced, Fresh, AllConserved, Lists, Total, Sum;
      DrainQueue(now);
      ghost var s := Now();
      var digests := coalescer.FlushAll();
      pushed := pushed + digests;
      ledger := ledger.(digests := ledger.digests + digests);
      EmptyTotal();
      StepConserves(coalescer.config, queue.capacity, s, Drain, Now());
      StepConservesAll(coalescer.config, queue.capacity, s, Drain, Now());
      StepSpaces(coalescer.config, queue.capacity, s, Drain, Now());
      Settled(Now());
    }
  }

  ghost predicate AllConserved(s: State) {
    forall id :: ConservedFor(s, id)
  }

  lemma StepConservesAll(c: Config, capacity: nat, s: State, e: Event, s': State)
    requires c.Valid() && AllConserved(s) && Step(c, capacity, s, e, s')
    ensures AllConserved(s')
  {
    hide Step, ConservedFor;
    forall id ensures ConservedFor(s', id) { StepConservesFor(c, capacity, s, e, s', id); }
  }

  /** Once nothing is queued, in hand or accumulated, the ledger balances by itself, for each account too. */
  lemma Settled(s: State)
    requires Conserved(s) && AllConserved(s) && s.queue == [] && s.hand.None? && s.items == map[]
    ensures |s.ledger.accepted| == |s.ledger.stale| + |s.ledger.full| + Sum(s.ledger.digests) + Sum(s.ledger.given)
    ensures forall id :: Times(s.ledger.accepted, id) ==
              Times(s.ledger.stale, id) + Times(s.ledger.full, id) + SumFor(s.ledger.digests, id)
              + SumFor(s.ledger.given, id)
  {
    EmptyTotal();
    forall id
      ensures Times(s.ledger.accepted, id) ==
                Times(s.ledger.stale, id) + Times(s.ledger.full, id) + SumFor(s.ledger.digests, id)
                + SumFor(s.ledger.given, id)
    {
      assert ConservedFor(s, id);
    }
  }
}
