/** Pair limits over calendar days: a cascade window lasts from midnight to midnight, so a stretch of 24 hours
    meets two of them. */
module PairDays {
  import opened BloomFilter
  import opened PairCascade
  import opened Wrappers

  /** Times are nanoseconds since the epoch. */
  const DAY: nat := 86_400_000_000_000

  datatype Ask = Ask(pair: Pair, limit: int, purpose: Purpose, time: nat)

  /** The current window and its day. */
  datatype Dated = Dated(day: int, window: Window)

  /** A request on a later day opens an empty window. */
  function Rotated(s: Dated, today: int): Dated {
    if today > s.day then Dated(today, Opening(|s.window.slots|)) else s
  }

  /** `ats` gives the positions of each pair under the key of each day's window. */
  function AfterOne(s: Dated, a: Ask, ats: int -> Pair -> set<nat>): Dated {
    var r := Rotated(s, a.time / DAY);
    r.(window := AfterAsk(r.window, a.pair, a.limit, a.purpose, ats(r.day)))
  }

  /** The window that a call of the cascade starts from, by `Cascade.Allow`, is the one of this step. */
  lemma CascadeSteps(c: Cascade, today: int)
    requires c.Valid()
    ensures Rotated(Dated(c.curr.day, c.View()), today).window == c.Opened(today)
    ensures Rotated(Dated(c.curr.day, c.View()), today).day == if today > c.curr.day then today else c.curr.day
  {
    hide Inv;
  }

  predicate Grants(s: Dated, a: Ask, ats: int -> Pair -> set<nat>) {
    var r := Rotated(s, a.time / DAY);
    SlotFor(r.window, a.pair, a.limit, ats(r.day)).Some?
  }

  /** The cascade after a run of requests, started on day `first`. */
  function AfterAsks(maxSlots: nat, first: int, asks: seq<Ask>, ats: int -> Pair -> set<nat>): (s: Dated)
    ensures |s.window.slots| == maxSlots
  {
    if asks == [] then Dated(first, Opening(maxSlots))
    else AfterOne(AfterAsks(maxSlots, first, asks[..|asks| - 1], ats), asks[|asks| - 1], ats)
  }

  /** How often the pair is granted from `t1` on and before `t2`. */
  function GrantsIn(maxSlots: nat, first: int, asks: seq<Ask>, ats: int -> Pair -> set<nat>, pair: Pair, t1: int,
                    t2: int): nat
  {
    if asks == [] then 0
    else
      var n := |asks| - 1;
      var a := asks[n];
      GrantsIn(maxSlots, first, asks[..n], ats, pair, t1, t2)
      + (if a.pair == pair && t1 <= a.time < t2 && Grants(AfterAsks(maxSlots, first, asks[..n], ats), a, ats)
         then 1 else 0)
  }

  predicate Ordered(asks: seq<Ask>, first: int) {
    && (forall i | 0 <= i < |asks| :: first <= asks[i].time / DAY)
    && (forall i, j | 0 <= i <= j < |asks| :: asks[i].time <= asks[j].time)
  }

  predicate AskedUpTo(asks: seq<Ask>, pair: Pair, limit: nat) {
    forall i | 0 <= i < |asks| && asks[i].pair == pair :: asks[i].limit <= limit
  }

  predicate GrantedUpTo(log: seq<Grant>, pair: Pair, limit: nat) {
    forall i | 0 <= i < |log| && log[i].pair == pair :: log[i].limit <= limit
  }

  /** One request, seen from the books of its window. */
  lemma AskCounts(w: Window, a: Ask, at: Pair -> set<nat>, pair: Pair, limit: nat)
    requires Inv(w.slots, w.log, at) && GrantedUpTo(w.log, pair, limit) && (a.pair == pair ==> a.limit <= limit)
    ensures var w' := AfterAsk(w, a.pair, a.limit, a.purpose, at);
            && Inv(w'.slots, w'.log, at) && GrantedUpTo(w'.log, pair, limit)
            && Count(w'.log, pair) == Count(w.log, pair)
                 + (if a.pair == pair && SlotFor(w, a.pair, a.limit, at).Some? then 1 else 0)
  {
    hide Inv;
    AskKeepsInv(w, a.pair, a.limit, a.purpose, at);
    if SlotFor(w, a.pair, a.limit, at).Some? {
      var g := Grant(a.pair, SlotFor(w, a.pair, a.limit, at).value, a.limit, a.purpose);
      assert (w.log + [g])[..|w.log|] == w.log;
    }
  }

  /** The books of the run: the current window holds the grants of its day, and no day has more than the limit. */
  ghost predicate Booked(maxSlots: nat, first: int, asks: seq<Ask>, ats: int -> Pair -> set<nat>, pair: Pair,
                         limit: nat) {
    var s := AfterAsks(maxSlots, first, asks, ats);
    && Inv(s.window.slots, s.window.log, ats(s.day)) && GrantedUpTo(s.window.log, pair, limit)
    && s.day == (if asks == [] then first else asks[|asks| - 1].time / DAY)
    && forall d :: DayBooked(maxSlots, first, asks, ats, pair, limit, d)
  }

  predicate DayBooked(maxSlots: nat, first: int, asks: seq<Ask>, ats: int -> Pair -> set<nat>, pair: Pair, limit: nat,
                      d: int) {
    var s, n := AfterAsks(maxSlots, first, asks, ats),
        GrantsIn(maxSlots, first, asks, ats, pair, d * DAY, (d + 1) * DAY);
    n <= Depth(limit, maxSlots) && (d > s.day ==> n == 0) && (d == s.day ==> n == Count(s.window.log, pair))
  }

  lemma {:induction false} RunIsBooked(maxSlots: nat, first: int, asks: seq<Ask>, ats: int -> Pair -> set<nat>,
                                       pair: Pair, limit: nat)
    requires Ordered(asks, first) && AskedUpTo(asks, pair, limit)
    ensures Booked(maxSlots, first, asks, ats, pair, limit)
  {
    hide Inv, AfterAsk, SlotFor;
    if asks == [] {
      EmptyWindowInv(Opening(maxSlots).slots, ats(first));
    } else {
      var n := |asks| - 1;
      var a := asks[n];
      RunIsBooked(maxSlots, first, asks[..n], ats, pair, limit);
      var s := AfterAsks(maxSlots, first, asks[..n], ats);
      var r := Rotated(s, a.time / DAY);
      assert n > 0 ==> asks[n - 1].time <= a.time;
      if r != s { EmptyWindowInv(Opening(maxSlots).slots, ats(r.day)); }
      AskCounts(r.window, a, ats(r.day), pair, limit);
      var s' := AfterAsks(maxSlots, first, asks, ats);
      assert s' == AfterOne(s, a, ats);
      WindowIsLimited(s'.window, ats(s'.day), pair, limit, maxSlots);
      forall d ensures DayBooked(maxSlots, first, asks, ats, pair, limit, d) {
        DayGoesOn(maxSlots, first, asks, ats, pair, limit, d);
      }
    }
  }

  /** One more request in the books of a day: those of its own day grow with the window, the others stay. */
  lemma DayGoesOn(maxSlots: nat, first: int, asks: seq<Ask>, ats: int -> Pair -> set<nat>, pair: Pair, limit: nat,
                  d: int)
    requires asks != []
    requires var n, a := |asks| - 1, asks[|asks| - 1];
             var s, s' := AfterAsks(maxSlots, first, asks[..n], ats), AfterAsks(maxSlots, first, asks, ats);
             var r := Rotated(s, a.time / DAY);
             && DayBooked(maxSlots, first, asks[..n], ats, pair, limit, d)
             && s.day <= s'.day == a.time / DAY
             && Count(s'.window.log, pair) ==
                  Count(r.window.log, pair) + (if a.pair == pair && Grants(s, a, ats) then 1 else 0)
             && Count(s'.window.log, pair) <= Depth(limit, maxSlots)
    ensures DayBooked(maxSlots, first, asks, ats, pair, limit, d)
  {
    hide Grants, AfterAsks, Depth;
  }

  lemma WindowIsLimited(w: Window, at: Pair -> set<nat>, pair: Pair, limit: nat, maxSlots: nat)
    requires Inv(w.slots, w.log, at) && |w.slots| == maxSlots && GrantedUpTo(w.log, pair, limit)
    ensures Count(w.log, pair) <= Depth(limit, maxSlots)
  {
    PairIsLimited(w.log, pair, limit, maxSlots);
  }

  lemma {:induction false} StretchMeetsTwoDays(maxSlots: nat, first: int, asks: seq<Ask>, ats: int -> Pair -> set<nat>,
                                               pair: Pair, t: int, d: int)
    requires d * DAY <= t < (d + 1) * DAY
    ensures GrantsIn(maxSlots, first, asks, ats, pair, t, t + DAY) <=
              GrantsIn(maxSlots, first, asks, ats, pair, d * DAY, (d + 1) * DAY)
              + GrantsIn(maxSlots, first, asks, ats, pair, (d + 1) * DAY, (d + 2) * DAY)
  {
    hide Grants, AfterAsks;
    if asks != [] {
      StretchMeetsTwoDays(maxSlots, first, asks[..|asks| - 1], ats, pair, t, d);
    }
  }

  /** Main result: whatever else is asked for, any 24 hours grant a pair at most twice its limit. */
  lemma StretchIsLimited(maxSlots: nat, first: int, asks: seq<Ask>, ats: int -> Pair -> set<nat>, pair: Pair,
                         limit: nat, t: int)
    requires Ordered(asks, first) && AskedUpTo(asks, pair, limit)
    ensures GrantsIn(maxSlots, first, asks, ats, pair, t, t + DAY) <= 2 * Depth(limit, maxSlots) <= 2 * limit
  {
    hide GrantsIn, AfterAsks, Ordered, AskedUpTo;
    var d := t / DAY;
    RunIsBooked(maxSlots, first, asks, ats, pair, limit);
    assert DayBooked(maxSlots, first, asks, ats, pair, limit, d);
    assert DayBooked(maxSlots, first, asks, ats, pair, limit, d + 1);
    StretchMeetsTwoDays(maxSlots, first, asks, ats, pair, t, d);
  }

  // ---------- the bound is reached ----------

  /** `limit` requests in the last nanosecond of day `d`, and `k` in the first of the next. */
  function AcrossMidnight(pair: Pair, limit: nat, d: nat, k: nat): (asks: seq<Ask>)
    requires k <= 2 * limit
    ensures |asks| == k
  {
    seq(k, i requires 0 <= i < k => Ask(pair, limit, Ordinary, if i < limit then (d + 1) * DAY - 1 else (d + 1) * DAY))
  }

  predicate FilledUpTo(slots: seq<set<nat>>, at: set<nat>, n: nat) {
    && n <= |slots|
    && (forall s | 0 <= s < n :: at <= slots[s])
    && (forall s | n <= s < |slots| :: slots[s] == {})
  }

  lemma NextSlotIsFree(w: Window, pair: Pair, limit: nat, at: Pair -> set<nat>, n: nat)
    requires at(pair) != {} && n < limit <= |w.slots| && FilledUpTo(w.slots, at(pair), n)
    ensures SlotFor(w, pair, limit, at) == Some(n)
    ensures FilledUpTo(AfterAsk(w, pair, limit, Ordinary, at).slots, at(pair), n + 1)
  {
    hide FirstFree;
    FirstFreeIs(w.slots, at(pair), limit, n);
  }

  lemma {:induction false} EveryAskIsGranted(maxSlots: nat, ats: int -> Pair -> set<nat>, pair: Pair, limit: nat,
                                             d: nat, k: nat)
    requires 0 < limit <= maxSlots && k <= 2 * limit && ats(d)(pair) != {} && ats(d + 1)(pair) != {}
    ensures var s := AfterAsks(maxSlots, d, AcrossMidnight(pair, limit, d, k), ats);
            && s.day == (if k <= limit then d else d + 1)
            && FilledUpTo(s.window.slots, ats(s.day)(pair), if k <= limit then k else k - limit)
    ensures var t := (d + 1) * DAY - 1;
            GrantsIn(maxSlots, d, AcrossMidnight(pair, limit, d, k), ats, pair, t, t + DAY) == k
  {
    hide SlotFor, AfterAsk;
    if k > 0 {
      EveryAskIsGranted(maxSlots, ats, pair, limit, d, k - 1);
      var asks := AcrossMidnight(pair, limit, d, k);
      assert asks[..k - 1] == AcrossMidnight(pair, limit, d, k - 1);
      var s := AfterAsks(maxSlots, d, asks[..k - 1], ats);
      var a := asks[k - 1];
      var r := Rotated(s, a.time / DAY);
      assert a.time / DAY == if k <= limit then d else d + 1;
      NextSlotIsFree(r.window, pair, limit, ats(r.day), if k <= limit then k - 1 else k - 1 - limit);
    }
  }

  /** Main result: the bound is reached, for every pair, every limit within the slots, every hash and all keys, by a run
      across any midnight. */
  lemma TwiceIsReached(maxSlots: nat, mac: (nat, Pair) -> Probe, keys: int -> nat, bits: nat, pair: Pair, limit: nat,
                       d: nat)
    requires 0 < limit <= maxSlots && bits > 0
    ensures var asks, ats, t := AcrossMidnight(pair, limit, d, 2 * limit), Keyed(mac, keys, bits), (d + 1) * DAY - 1;
            && Ordered(asks, d) && AskedUpTo(asks, pair, limit)
            && GrantsIn(maxSlots, d, asks, ats, pair, t, t + DAY) == 2 * limit
  {
    hide GrantsIn, AfterAsks;
    PositionsExist(mac, keys(d), bits, pair);
    PositionsExist(mac, keys(d + 1), bits, pair);
    EveryAskIsGranted(maxSlots, Keyed(mac, keys, bits), pair, limit, d, 2 * limit);
  }

  /** Each day's positions under that day's key. */
  function Keyed(mac: (nat, Pair) -> Probe, keys: int -> nat, bits: nat): int -> Pair -> set<nat>
    requires bits > 0
  {
    (day: int) => At(mac, keys(day), bits)
  }

  lemma PositionsExist(mac: (nat, Pair) -> Probe, key: nat, bits: nat, pair: Pair)
    requires bits > 0
    ensures At(mac, key, bits)(pair) != {}
  {
    assert Index(HashPair(mac, key, pair), 0, bits) in At(mac, key, bits)(pair);
  }
}
