/** The cascade of Bloom filters that limits grants per (sender, handle) within one day window. */
module PairCascade {
  import opened Bits
  import opened BloomFilter
  import opened Words
  import opened Wrappers

  datatype Pair = Pair(sender: int, handle: string)

  /** Why a grant was asked for: for a handle that is no group, as one of the day's distinct groups, or for a group
      handle, with or without having just been charged as distinct. */
  datatype Purpose = Ordinary | Distinct | Group(charged: bool)

  datatype Grant = Grant(pair: Pair, slot: nat, limit: int, purpose: Purpose)

  // ---------- one window on values: slots as sets of marked positions ----------

  function Count(log: seq<Grant>, p: Pair): (n: nat)
    ensures n <= |log|
  {
    if log == [] then 0
    else Count(log[..|log| - 1], p) + (if log[|log| - 1].pair == p then 1 else 0)
  }

  /** The first of the first `m` slots that does not contain all of `at`. */
  function FirstFree(slots: seq<set<nat>>, at: set<nat>, m: nat): (s: Option<nat>)
    requires m <= |slots|
    ensures s.Some? ==> s.value < m && !(at <= slots[s.value])
    ensures s.Some? ==> forall k | 0 <= k < s.value :: at <= slots[k]
    ensures s.None? <==> forall k | 0 <= k < m :: at <= slots[k]
  {
    if m == 0 then None
    else
      var s := FirstFree(slots, at, m - 1);
      if s.Some? then s else if at <= slots[m - 1] then None else Some(m - 1)
  }

  function Min(a: int, b: int): int {
    if a < b then a else b
  }

  /** How many slots a call with this limit looks at. */
  function Depth(limit: int, maxSlots: nat): (m: nat)
    ensures m <= maxSlots
  {
    if Min(limit, maxSlots) < 0 then 0 else Min(limit, maxSlots)
  }

  /** Every mark is there because of a grant. */
  ghost predicate Filled(slots: seq<set<nat>>, log: seq<Grant>, at: Pair -> set<nat>) {
    forall s, k | 0 <= s < |slots| && k in slots[s] :: MarkedBy(log, at, s, k)
  }

  ghost predicate MarkedBy(log: seq<Grant>, at: Pair -> set<nat>, s: nat, k: nat) {
    exists i :: 0 <= i < |log| && log[i].slot == s && k in at(log[i].pair)
  }

  /** A granted pair is in its slot and in every slot before it. */
  ghost predicate Below(slots: seq<set<nat>>, log: seq<Grant>, at: Pair -> set<nat>) {
    forall i | 0 <= i < |log| :: SlotsContain(slots, at(log[i].pair), log[i].slot)
  }

  predicate SlotsContain(slots: seq<set<nat>>, at: set<nat>, slot: nat) {
    slot < |slots| && forall s | 0 <= s <= slot :: at <= slots[s]
  }

  /** A pair never gets the same slot twice, and its slots go up. */
  predicate Increasing(log: seq<Grant>) {
    forall i, j | 0 <= i < j < |log| && log[i].pair == log[j].pair :: log[i].slot < log[j].slot
  }

  /** An exact counter of the pair's grants would have granted this one too. */
  predicate ExactWouldGrant(log: seq<Grant>, i: nat, maxSlots: nat)
    requires i < |log|
  {
    Count(log[..i], log[i].pair) < Depth(log[i].limit, maxSlots)
  }

  predicate AllExact(log: seq<Grant>, maxSlots: nat) {
    forall i | 0 <= i < |log| :: ExactWouldGrant(log, i, maxSlots)
  }

  ghost predicate Inv(slots: seq<set<nat>>, log: seq<Grant>, at: Pair -> set<nat>) {
    Filled(slots, log, at) && Below(slots, log, at) && Increasing(log) && AllExact(log, |slots|)
  }

  /** The slot looks taken by `p`, though `p` was never put there. */
  ghost predicate FalsePositive(slots: seq<set<nat>>, log: seq<Grant>, at: Pair -> set<nat>, p: Pair, s: nat) {
    && s < |slots| && at(p) <= slots[s]
    && forall i | 0 <= i < |log| :: !(log[i].pair == p && log[i].slot == s)
  }

  lemma {:induction false} CountBelow(log: seq<Grant>, p: Pair, b: nat)
    requires Increasing(log)
    requires forall i | 0 <= i < |log| && log[i].pair == p :: log[i].slot < b
    ensures Count(log, p) <= b
    decreases |log|
  {
    if log != [] {
      var n := |log| - 1;
      var rest := log[..n];
      assert Increasing(rest);
      if log[n].pair == p {
        assert forall i | 0 <= i < n && rest[i].pair == p :: rest[i].slot < log[n].slot;
        CountBelow(rest, p, log[n].slot);
      } else {
        CountBelow(rest, p, b);
      }
    }
  }

  lemma SlotsBefore(slots: seq<set<nat>>, log: seq<Grant>, at: Pair -> set<nat>, p: Pair, m: nat)
    requires Below(slots, log, at) && m <= |slots| && FirstFree(slots, at(p), m).Some?
    ensures forall i | 0 <= i < |log| && log[i].pair == p :: log[i].slot < FirstFree(slots, at(p), m).value
  {
    var s := FirstFree(slots, at(p), m).value;
    forall i | 0 <= i < |log| && log[i].pair == p ensures log[i].slot < s {
      assert SlotsContain(slots, at(p), log[i].slot);
    }
  }

  /** Granting in the first free slot keeps the invariant, whatever the probes and whatever else was granted. */
  lemma GrantKeepsInv(slots: seq<set<nat>>, log: seq<Grant>, at: Pair -> set<nat>, g: Grant)
    requires Inv(slots, log, at)
    requires FirstFree(slots, at(g.pair), Depth(g.limit, |slots|)) == Some(g.slot)
    ensures Inv(slots[g.slot := slots[g.slot] + at(g.pair)], log + [g], at)
  {
    hide FirstFree;
    var slots', log' := slots[g.slot := slots[g.slot] + at(g.pair)], log + [g];
    SlotsBefore(slots, log, at, g.pair, Depth(g.limit, |slots|));
    CountBelow(log, g.pair, g.slot);
    FilledGrows(slots, log, at, g);
    BelowGrows(slots, log, at, g);
    ExactGrows(log, g, |slots|);
    forall i, j | 0 <= i < j < |log'| && log'[i].pair == log'[j].pair ensures log'[i].slot < log'[j].slot {
      assert log'[i] == log[i];
      if j < |log| { assert log'[j] == log[j]; } else { assert log'[j] == g; }
    }
  }

  lemma FilledGrows(slots: seq<set<nat>>, log: seq<Grant>, at: Pair -> set<nat>, g: Grant)
    requires Filled(slots, log, at) && g.slot < |slots|
    ensures Filled(slots[g.slot := slots[g.slot] + at(g.pair)], log + [g], at)
  {
    var slots', log' := slots[g.slot := slots[g.slot] + at(g.pair)], log + [g];
    forall s, k | 0 <= s < |slots'| && k in slots'[s] ensures MarkedBy(log', at, s, k) {
      if k in slots[s] {
        var i :| 0 <= i < |log| && log[i].slot == s && k in at(log[i].pair);
        assert log'[i] == log[i];
      } else {
        assert log'[|log|] == g;
      }
    }
  }

  lemma BelowGrows(slots: seq<set<nat>>, log: seq<Grant>, at: Pair -> set<nat>, g: Grant)
    requires Below(slots, log, at) && g.slot < |slots|
    requires forall k | 0 <= k < g.slot :: at(g.pair) <= slots[k]
    ensures Below(slots[g.slot := slots[g.slot] + at(g.pair)], log + [g], at)
  {
    var slots', log' := slots[g.slot := slots[g.slot] + at(g.pair)], log + [g];
    forall i | 0 <= i < |log'| ensures SlotsContain(slots', at(log'[i].pair), log'[i].slot) {
      if i < |log| { assert SlotsContain(slots, at(log[i].pair), log[i].slot); }
    }
  }

  lemma ExactGrows(log: seq<Grant>, g: Grant, maxSlots: nat)
    requires AllExact(log, maxSlots) && Count(log, g.pair) < Depth(g.limit, maxSlots)
    ensures AllExact(log + [g], maxSlots)
  {
    var log' := log + [g];
    forall i | 0 <= i < |log'| ensures ExactWouldGrant(log', i, maxSlots) {
      if i < |log| {
        assert log'[i] == log[i] && log'[..i] == log[..i];
        assert ExactWouldGrant(log, i, maxSlots);
      } else {
        assert log'[..i] == log;
      }
    }
  }

  /** So a pair asked for with limits up to `limit` only is granted at most `limit` times in a window. */
  lemma {:induction false} PairIsLimited(log: seq<Grant>, p: Pair, limit: nat, maxSlots: nat)
    requires AllExact(log, maxSlots)
    requires forall i | 0 <= i < |log| && log[i].pair == p :: log[i].limit <= limit
    ensures Count(log, p) <= Depth(limit, maxSlots)
  {
    if log != [] {
      var n := |log| - 1;
      AllExactPrefix(log, maxSlots);
      assert ExactWouldGrant(log, n, maxSlots);
      PairIsLimited(log[..n], p, limit, maxSlots);
    }
  }

  lemma AllExactPrefix(log: seq<Grant>, maxSlots: nat)
    requires log != [] && AllExact(log, maxSlots)
    ensures AllExact(log[..|log| - 1], maxSlots)
  {
    var n := |log| - 1;
    forall i | 0 <= i < n ensures ExactWouldGrant(log[..n], i, maxSlots) {
      assert log[..n][..i] == log[..i] && ExactWouldGrant(log, i, maxSlots);
    }
  }

  // ---------- a refusal beyond the exact counter is a false positive ----------

  function Range(m: nat): (r: set<nat>)
    ensures |r| == m
    ensures forall x: nat :: x in r <==> x < m
  {
    if m == 0 then {} else Range(m - 1) + {m - 1}
  }

  function SlotsOf(log: seq<Grant>, p: Pair): set<nat> {
    set i | 0 <= i < |log| && log[i].pair == p :: log[i].slot
  }

  lemma {:induction false} SlotsOfCount(log: seq<Grant>, p: Pair)
    ensures |SlotsOf(log, p)| <= Count(log, p)
  {
    if log != [] {
      var n := |log| - 1;
      SlotsOfCount(log[..n], p);
      if log[n].pair == p {
        assert SlotsOf(log, p) == SlotsOf(log[..n], p) + {log[n].slot};
      } else {
        assert SlotsOf(log, p) == SlotsOf(log[..n], p);
      }
    }
  }

  /** Where an exact counter would have granted, the cascade refuses only on a false positive. */
  lemma RefusalNeedsFalsePositive(slots: seq<set<nat>>, log: seq<Grant>, at: Pair -> set<nat>, p: Pair, m: nat)
    requires m <= |slots| && FirstFree(slots, at(p), m) == None && Count(log, p) < m
    ensures exists s :: 0 <= s < m && FalsePositive(slots, log, at, p, s)
  {
    SlotsOfCount(log, p);
    if Range(m) <= SlotsOf(log, p) {
      SubsetCount(Range(m), SlotsOf(log, p));
      assert false;
    }
    var s :| s in Range(m) && s !in SlotsOf(log, p);
    assert FalsePositive(slots, log, at, p, s);
  }

  /** A false positive is made of other pairs: each of its positions was marked for one granted that slot. */
  lemma FalsePositiveIsOthers(slots: seq<set<nat>>, log: seq<Grant>, at: Pair -> set<nat>, p: Pair, s: nat)
    requires Filled(slots, log, at) && FalsePositive(slots, log, at, p, s)
    ensures forall k | k in at(p) ::
      exists i :: 0 <= i < |log| && log[i].slot == s && log[i].pair != p && k in at(log[i].pair)
  {
    forall k | k in at(p)
      ensures exists i :: 0 <= i < |log| && log[i].slot == s && log[i].pair != p && k in at(log[i].pair)
    {
      assert MarkedBy(log, at, s, k);
      var i :| 0 <= i < |log| && log[i].slot == s && k in at(log[i].pair);
    }
  }

  /** What asking for a grant leads to. It is granted only where an exact counter would grant it too, and refused
      where that would grant it only by a false positive. */
  ghost predicate Asked(base: seq<Grant>, log: seq<Grant>, pair: Pair, limit: int, purpose: Purpose,
                        slots: seq<set<nat>>, at: Pair -> set<nat>, granted: bool) {
    if granted
    then exists slot: nat :: log == base + [Grant(pair, slot, limit, purpose)]
           && Count(base, pair) <= slot < Depth(limit, |slots|)
    else log == base && (Count(base, pair) < Depth(limit, |slots|) ==>
      exists s :: 0 <= s < Depth(limit, |slots|) && FalsePositive(slots, log, at, pair, s))
  }

  // ---------- asking on values ----------

  datatype Window = Window(slots: seq<set<nat>>, log: seq<Grant>)

  function Opening(maxSlots: nat): (w: Window)
    ensures |w.slots| == maxSlots && forall i | 0 <= i < maxSlots :: w.slots[i] == {}
  {
    Window(seq(maxSlots, i => {}), [])
  }

  /** The slot a pair would get. */
  function SlotFor(w: Window, pair: Pair, limit: int, at: Pair -> set<nat>): (s: Option<nat>)
    ensures s.Some? ==> s.value < Depth(limit, |w.slots|)
  {
    FirstFree(w.slots, at(pair), Depth(limit, |w.slots|))
  }

  function AfterAsk(w: Window, pair: Pair, limit: int, purpose: Purpose, at: Pair -> set<nat>): (w': Window)
    ensures |w'.slots| == |w.slots|
  {
    match SlotFor(w, pair, limit, at)
    case None => w
    case Some(s) => Window(w.slots[s := w.slots[s] + at(pair)], w.log + [Grant(pair, s, limit, purpose)])
  }

  /** Asking keeps the invariant, and answers as the exact counter would but for false positives. */
  lemma AskKeepsInv(w: Window, pair: Pair, limit: int, purpose: Purpose, at: Pair -> set<nat>)
    requires Inv(w.slots, w.log, at)
    ensures var w' := AfterAsk(w, pair, limit, purpose, at);
            && Inv(w'.slots, w'.log, at)
            && Asked(w.log, w'.log, pair, limit, purpose, w'.slots, at, SlotFor(w, pair, limit, at).Some?)
  {
    hide Inv, FirstFree, FalsePositive;
    var m := Depth(limit, |w.slots|);
    if SlotFor(w, pair, limit, at).Some? {
      var s := SlotFor(w, pair, limit, at).value;
      GrantKeepsInv(w.slots, w.log, at, Grant(pair, s, limit, purpose));
      Bounded(w.slots, w.log, at, pair, m);
    } else if Count(w.log, pair) < m {
      RefusalNeedsFalsePositive(w.slots, w.log, at, pair, m);
    }
  }

  // ---------- the cascade ----------

  /** The keyed hash of a pair, an uninterpreted function; a zero second hash is replaced by 1. */
  function HashPair(mac: (nat, Pair) -> Probe, key: nat, p: Pair): Probe {
    var h := mac(key, p);
    Probe(h.h1, if h.h2 == 0 then 1 else h.h2)
  }

  /** The positions of each pair under one window key. */
  function At(mac: (nat, Pair) -> Probe, key: nat, bits: nat): Pair -> set<nat>
    requires bits > 0
  {
    (p: Pair) => Positions(HashPair(mac, key, p), bits)
  }

  datatype PairWindow = PairWindow(day: int, key: nat, slots: seq<Filter>)

  predicate Distinctly(slots: seq<Filter>, bits: nat) {
    && (forall i | 0 <= i < |slots| :: slots[i].Valid() && slots[i].numBits == bits)
    && (forall i, j | 0 <= i < j < |slots| :: slots[i].bits != slots[j].bits)
  }

  function Arrays(slots: seq<Filter>): set<array<nat>> {
    set i | 0 <= i < |slots| :: slots[i].bits
  }

  function Contents(slots: seq<Filter>): (c: seq<set<nat>>)
    reads Arrays(slots)
    ensures |c| == |slots|
  {
    seq(|slots|, i reads Arrays(slots) requires 0 <= i < |slots| => slots[i].Contents())
  }

  method NewPairWindow(day: int, key: nat, maxSlots: nat, slotBytes: int) returns (w: PairWindow)
    ensures w.day == day && w.key == key && |w.slots| == maxSlots
    ensures Distinctly(w.slots, SlotBits(slotBytes))
    ensures forall a | a in Arrays(w.slots) :: fresh(a)
    ensures forall i | 0 <= i < maxSlots :: Contents(w.slots)[i] == {}
  {
    var slots: seq<Filter> := [];
    for i := 0 to maxSlots
      invariant |slots| == i && Distinctly(slots, SlotBits(slotBytes))
      invariant forall j | 0 <= j < i :: fresh(slots[j].bits) && slots[j].Contents() == {}
    {
      var filter := new Filter(slotBytes);
      slots := slots + [filter];
    }
    w := PairWindow(day, key, slots);
  }

  function SlotBits(slotBytes: int): (n: nat)
    ensures n > 0
  {
    8 * (if slotBytes < FLOOR_BYTES then FLOOR_BYTES else slotBytes)
  }

  lemma EmptyWindowInv(slots: seq<set<nat>>, at: Pair -> set<nat>)
    requires forall i | 0 <= i < |slots| :: slots[i] == {}
    ensures Inv(slots, [], at)
  {
  }

  class Cascade {
    const maxSlots: nat
    const slotBytes: int
    const mac: (nat, Pair) -> Probe
    var curr: PairWindow
    var prev: PairWindow
    /** The grants of the current window. */
    ghost var log: seq<Grant>

    function Positions(): Pair -> set<nat>
      reads this
    {
      At(mac, curr.key, SlotBits(slotBytes))
    }

    ghost function View(): Window
      reads this, Arrays(curr.slots)
    {
      Window(Contents(curr.slots), log)
    }

    /** The window a request on that day finds: an empty one if the day is new. */
    ghost function Opened(today: int): (w: Window)
      reads this, Arrays(curr.slots)
      ensures |curr.slots| == maxSlots ==> |w.slots| == maxSlots
    {
      if today > curr.day then Opening(maxSlots) else View()
    }

    ghost predicate Valid()
      reads this, Arrays(curr.slots)
    {
      && maxSlots >= 10 && |curr.slots| == maxSlots
      && Distinctly(curr.slots, SlotBits(slotBytes))
      && Inv(Contents(curr.slots), log, Positions())
    }

    constructor (maxSlots: nat, slotBytes: int, mac: (nat, Pair) -> Probe, today: int, key: nat, prevKey: nat)
      ensures Valid() && fresh(Arrays(curr.slots)) && log == [] && curr.day == today
      ensures this.maxSlots == (if maxSlots < 10 then 10 else maxSlots)
    {
      var size := if maxSlots < 10 then 10 else maxSlots;
      var first := NewPairWindow(today, key, size, slotBytes);
      var second := NewPairWindow(today - 1, prevKey, size, slotBytes);
      this.maxSlots := size;
      this.slotBytes := slotBytes;
      this.mac := mac;
      curr := first;
      prev := second;
      log := [];
      new;
      EmptyWindowInv(Contents(curr.slots), Positions());
    }

    /** A later day opens an empty window under a fresh key. */
    method RotateIfNeeded(today: int, key: nat)
      requires Valid()
      modifies this
      ensures Valid()
      ensures View() == old(Opened(today))
      ensures if today > old(curr.day) then log == [] && curr.day == today && fresh(Arrays(curr.slots))
              else curr == old(curr) && log == old(log)
    {
      if today > curr.day {
        prev := curr;
        curr := NewPairWindow(today, key, maxSlots, slotBytes);
        log := [];
        EmptyWindowInv(Contents(curr.slots), Positions());
        assert Contents(curr.slots) == Opening(maxSlots).slots;
      }
    }

    method HasSeenToday(pair: Pair, today: int, key: nat) returns (seen: bool)
      requires Valid()
      modifies this
      ensures Valid()
      ensures if today > old(curr.day) then log == [] && curr.day == today && fresh(Arrays(curr.slots))
              else curr == old(curr) && log == old(log)
      ensures View() == old(Opened(today))
      ensures seen <==> Positions()(pair) <= View().slots[0]
      ensures today > old(curr.day) ==> !seen
    {
      assert forall p: Probe, n: nat | n > 0 :: Index(p, 0, n) in BloomFilter.Positions(p, n);
      hide Inv, BloomFilter.Positions, HashPair, SlotBits;
      RotateIfNeeded(today, key);
      assert Contents(curr.slots)[0] == curr.slots[0].Contents();
      assert Positions()(pair) == BloomFilter.Positions(HashPair(mac, curr.key, pair), SlotBits(slotBytes));
      assert curr.slots[0].numBits == SlotBits(slotBytes);
      ghost var c := Contents(curr.slots);
      seen := curr.slots[0].Contains(HashPair(mac, curr.key, pair));
      assert Contents(curr.slots) == c;
    }

    /** The first free slot within the limit, or -1. */
    method FindSlot(pair: Pair, limit: int) returns (slot: int)
      requires Valid()
      ensures var free := FirstFree(Contents(curr.slots), Positions()(pair), Depth(limit, maxSlots));
              slot == if free.Some? then free.value else -1
    {
      hide Inv, FirstFree, BloomFilter.Positions, HashPair, SlotBits;
      var probe := HashPair(mac, curr.key, pair);
      ghost var c, at := Contents(curr.slots), Positions()(pair);
      assert at == BloomFilter.Positions(probe, SlotBits(slotBytes));
      var depth := if limit > maxSlots then maxSlots else limit;
      ghost var m := Depth(limit, maxSlots);
      assert if depth < 0 then m == 0 else m == depth;
      slot := 0;
      while slot < depth
        invariant 0 <= slot <= m && Contents(curr.slots) == c
        invariant forall k | 0 <= k < slot :: at <= c[k]
      {
        assert c[slot] == curr.slots[slot].Contents() && curr.slots[slot].numBits == SlotBits(slotBytes);
        var taken := curr.slots[slot].Contains(probe);
        assert Contents(curr.slots) == c;
        if !taken {
          FirstFreeIs(c, at, m, slot);
          return;
        }
        slot := slot + 1;
      }
      slot := -1;
    }

    method Insert(pair: Pair, slot: nat, ghost limit: int, ghost purpose: Purpose)
      requires Valid()
      requires FirstFree(Contents(curr.slots), Positions()(pair), Depth(limit, maxSlots)) == Some(slot)
      modifies this`log, Arrays(curr.slots)
      ensures Valid() && View() == AfterAsk(old(View()), pair, limit, purpose, Positions())
    {
      hide Inv, FirstFree, BloomFilter.Positions, HashPair, SlotBits;
      ghost var c, at, base := Contents(curr.slots), Positions(), log;
      var probe := HashPair(mac, curr.key, pair);
      assert at(pair) == BloomFilter.Positions(probe, SlotBits(slotBytes));
      assert c[slot] == curr.slots[slot].Contents() && curr.slots[slot].numBits == SlotBits(slotBytes);
      GrantKeepsInv(c, base, at, Grant(pair, slot, limit, purpose));
      curr.slots[slot].Add(probe);
      log := log + [Grant(pair, slot, limit, purpose)];
      assert Contents(curr.slots) == c[slot := c[slot] + at(pair)];
    }

    /** Grants in the first slot that is free, if there is one within the limit; the log records it. */
    method Allow(pair: Pair, limit: int, today: int, key: nat, ghost purpose: Purpose) returns (granted: bool)
      requires Valid()
      modifies this, Arrays(curr.slots)
      ensures Valid()
      ensures if today > old(curr.day) then curr.day == today && fresh(Arrays(curr.slots)) else curr == old(curr)
      ensures View() == AfterAsk(old(Opened(today)), pair, limit, purpose, Positions())
      ensures granted == SlotFor(old(Opened(today)), pair, limit, Positions()).Some?
      ensures Asked(old(Opened(today)).log, log, pair, limit, purpose, Contents(curr.slots), Positions(), granted)
    {
      hide Inv, FirstFree, FalsePositive, Asked, Contents;
      RotateIfNeeded(today, key);
      ghost var w := View();
      AskKeepsInv(w, pair, limit, purpose, Positions());
      var slot := FindSlot(pair, limit);
      granted := slot >= 0;
      if granted {
        Insert(pair, slot, limit, purpose);
      }
    }
  }

  lemma {:induction false} FirstFreeIs(slots: seq<set<nat>>, at: set<nat>, m: nat, s: nat)
    requires s < m <= |slots| && !(at <= slots[s]) && forall k | 0 <= k < s :: at <= slots[k]
    ensures FirstFree(slots, at, m) == Some(s)
  {
    var f := FirstFree(slots, at, m);
    assert f.Some?;
    assert f.value <= s && s <= f.value;
  }

  /** The exact count never passes the first free slot. */
  lemma Bounded(slots: seq<set<nat>>, log: seq<Grant>, at: Pair -> set<nat>, p: Pair, m: nat)
    requires Inv(slots, log, at) && m <= |slots| && FirstFree(slots, at(p), m).Some?
    ensures Count(log, p) <= FirstFree(slots, at(p), m).value
  {
    SlotsBefore(slots, log, at, p, m);
    CountBelow(log, p, FirstFree(slots, at(p), m).value);
  }
}
