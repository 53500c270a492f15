/** The daily cap on distinct group handles per sender, read off the log of a cascade window. */
module GroupSpread {
  import opened BloomFilter
  import opened Bits
  import opened PairCascade
  import opened Words
  import opened Wrappers

  /** The pseudo handle that counts a sender's distinct groups, and its limit. */
  const DISTINCT_GROUPS: string := "__group_distinct__"

  const MAX_DISTINCT: nat := 10

  function Charges(log: seq<Grant>, sender: int): nat {
    if log == [] then 0
    else
      var g := log[|log| - 1];
      Charges(log[..|log| - 1], sender) + (if g.purpose == Distinct && g.pair.sender == sender then 1 else 0)
  }

  function ChargedGroups(log: seq<Grant>, sender: int): nat {
    if log == [] then 0
    else
      var g := log[|log| - 1];
      ChargedGroups(log[..|log| - 1], sender) + (if g.purpose == Group(true) && g.pair.sender == sender then 1 else 0)
  }

  /** The group handles granted to a sender. */
  function Groups(log: seq<Grant>, sender: int): set<string> {
    set i | 0 <= i < |log| && log[i].purpose.Group? && log[i].pair.sender == sender :: log[i].pair.handle
  }

  /** The group handle was not granted to the sender before. */
  predicate IsFirst(log: seq<Grant>, i: nat)
    requires i < |log|
  {
    log[i].pair.handle !in Groups(log[..i], log[i].pair.sender)
  }

  /** A first grant of a group handle that was not charged. */
  predicate IsBypass(log: seq<Grant>, i: nat)
    requires i < |log|
  {
    log[i].purpose == Group(false) && IsFirst(log, i)
  }

  function Bypasses(log: seq<Grant>, sender: int): nat {
    if log == [] then 0
    else
      var n := |log| - 1;
      Bypasses(log[..n], sender) + (if log[n].pair.sender == sender && IsBypass(log, n) then 1 else 0)
  }

  /** The pair looked taken in slot 0 when it was granted without a charge. */
  ghost predicate LookedTaken(log: seq<Grant>, at: Pair -> set<nat>, i: nat)
    requires i < |log|
  {
    forall k | k in at(log[i].pair) :: MarkedBy(log[..i], at, 0, k)
  }

  ghost predicate WellCharged(log: seq<Grant>, at: Pair -> set<nat>) {
    && (forall i | 0 <= i < |log| && log[i].purpose == Distinct ::
          log[i].pair.handle == DISTINCT_GROUPS && log[i].limit == MAX_DISTINCT)
    && (forall i | 0 <= i < |log| && log[i].purpose == Group(false) :: LookedTaken(log, at, i))
    && (forall i | 0 <= i < |log| && log[i].purpose == Group(true) :: IsFirst(log, i))
    && (forall s :: ChargedGroups(log, s) <= Charges(log, s))
  }

  lemma {:induction false} GroupsCounted(log: seq<Grant>, sender: int)
    requires forall i | 0 <= i < |log| && log[i].purpose == Group(true) :: IsFirst(log, i)
    ensures |Groups(log, sender)| == ChargedGroups(log, sender) + Bypasses(log, sender)
  {
    if log != [] {
      var n := |log| - 1;
      forall i | 0 <= i < n && log[..n][i].purpose == Group(true) ensures IsFirst(log[..n], i) {
        assert IsFirst(log, i) && log[..n][..i] == log[..i];
      }
      GroupsCounted(log[..n], sender);
      GroupsSnoc(log, sender);
      assert log[n].purpose == Group(true) ==> IsFirst(log, n);
      var before := Groups(log[..n], sender);
      assert log[n].purpose.Group? && log[n].pair.sender == sender && IsFirst(log, n) ==>
        |before + {log[n].pair.handle}| == |before| + 1;
    }
  }

  lemma GroupsSnoc(log: seq<Grant>, sender: int)
    requires log != []
    ensures var n := |log| - 1;
            Groups(log, sender) == Groups(log[..n], sender)
              + (if log[n].purpose.Group? && log[n].pair.sender == sender then {log[n].pair.handle} else {})
  {
    var n := |log| - 1;
    assert forall i | 0 <= i < n :: log[..n][i] == log[i];
  }

  lemma {:induction false} ChargesWithinCount(log: seq<Grant>, sender: int)
    requires forall i | 0 <= i < |log| && log[i].purpose == Distinct :: log[i].pair.handle == DISTINCT_GROUPS
    ensures Charges(log, sender) <= Count(log, Pair(sender, DISTINCT_GROUPS))
  {
    if log != [] { ChargesWithinCount(log[..|log| - 1], sender); }
  }

  /** A sender is charged at most ten times in a window. */
  lemma {:induction false} ChargesAreLimited(log: seq<Grant>, sender: int, maxSlots: nat)
    requires AllExact(log, maxSlots)
    requires forall i | 0 <= i < |log| && log[i].purpose == Distinct ::
               log[i].pair.handle == DISTINCT_GROUPS && log[i].limit == MAX_DISTINCT
    ensures Charges(log, sender) <= MAX_DISTINCT
  {
    if log != [] {
      var n := |log| - 1;
      AllExactPrefix(log, maxSlots);
      ChargesAreLimited(log[..n], sender, maxSlots);
      ChargesWithinCount(log[..n], sender);
      assert ExactWouldGrant(log, n, maxSlots);
    }
  }

  /** The number of distinct group handles granted to a sender in a window is exactly that of its charged grants,
      of which there are at most ten, and that of the first grants that bypassed the charge. */
  lemma DistinctGroupsCount(log: seq<Grant>, at: Pair -> set<nat>, sender: int, maxSlots: nat)
    requires AllExact(log, maxSlots) && WellCharged(log, at)
    ensures |Groups(log, sender)| == ChargedGroups(log, sender) + Bypasses(log, sender)
    ensures ChargedGroups(log, sender) <= Charges(log, sender) <= MAX_DISTINCT
  {
    GroupsCounted(log, sender);
    ChargesAreLimited(log, sender, maxSlots);
  }

  lemma DistinctGroupsBound(log: seq<Grant>, at: Pair -> set<nat>, sender: int, maxSlots: nat)
    requires AllExact(log, maxSlots) && WellCharged(log, at)
    ensures |Groups(log, sender)| <= MAX_DISTINCT + Bypasses(log, sender)
  {
    DistinctGroupsCount(log, at, sender, maxSlots);
  }

  /** Each bypass of a pair not granted before in any way is a false positive of slot 0: all its positions were
      marked for other pairs. */
  lemma BypassIsFalsePositive(log: seq<Grant>, at: Pair -> set<nat>, i: nat)
    requires WellCharged(log, at) && i < |log| && IsBypass(log, i)
    requires forall j | 0 <= j < i :: log[j].pair != log[i].pair
    ensures forall k | k in at(log[i].pair) ::
      exists j :: 0 <= j < i && log[j].slot == 0 && log[j].pair != log[i].pair && k in at(log[j].pair)
  {
    assert LookedTaken(log, at, i);
    forall k | k in at(log[i].pair)
      ensures exists j :: 0 <= j < i && log[j].slot == 0 && log[j].pair != log[i].pair && k in at(log[j].pair)
    {
      assert MarkedBy(log[..i], at, 0, k);
      var j :| 0 <= j < i && log[..i][j].slot == 0 && k in at(log[..i][j].pair);
      assert log[j] == log[..i][j];
    }
  }

  /** Without bypasses the cap of ten holds. */
  lemma NoBypassesNoSpread(log: seq<Grant>, at: Pair -> set<nat>, sender: int, maxSlots: nat)
    requires AllExact(log, maxSlots) && WellCharged(log, at)
    requires forall i | 0 <= i < |log| :: !IsBypass(log, i)
    ensures |Groups(log, sender)| <= MAX_DISTINCT
  {
    NoBypasses(log, sender);
    DistinctGroupsBound(log, at, sender, maxSlots);
  }

  /** A handle is granted as a group always or never. */
  predicate OneKind(log: seq<Grant>) {
    forall i, j | 0 <= i < |log| && 0 <= j < |log| && log[i].pair.handle == log[j].pair.handle ::
      log[i].purpose.Group? == log[j].purpose.Group?
  }

  /** Only a pair granted before looked taken. */
  ghost predicate NoFalsePositive(log: seq<Grant>, at: Pair -> set<nat>) {
    forall i | 0 <= i < |log| && LookedTaken(log, at, i) :: exists j :: 0 <= j < i && log[j].pair == log[i].pair
  }

  /** Without false positives, and with every handle always of one kind, the cap of ten holds. */
  lemma NoFalsePositivesNoSpread(log: seq<Grant>, at: Pair -> set<nat>, sender: int, maxSlots: nat)
    requires AllExact(log, maxSlots) && WellCharged(log, at)
    requires OneKind(log) && NoFalsePositive(log, at)
    ensures |Groups(log, sender)| <= MAX_DISTINCT
  {
    hide AllExact, LookedTaken;
    forall i | 0 <= i < |log| ensures !IsBypass(log, i) {
      if log[i].purpose == Group(false) {
        assert LookedTaken(log, at, i);
        var j :| 0 <= j < i && log[j].pair == log[i].pair;
        assert log[..i][j] == log[j] && log[j].purpose.Group?;
      }
    }
    NoBypassesNoSpread(log, at, sender, maxSlots);
  }

  lemma {:induction false} NoBypasses(log: seq<Grant>, sender: int)
    requires forall i | 0 <= i < |log| :: !IsBypass(log, i)
    ensures Bypasses(log, sender) == 0
  {
    if log != [] {
      var n := |log| - 1;
      forall i | 0 <= i < n ensures !IsBypass(log[..n], i) {
        assert !IsBypass(log, i);
        assert log[..n][..i] == log[..i] && log[..n][i] == log[i];
      }
      NoBypasses(log[..n], sender);
    }
  }

  // ---------- pings of one window ----------

  datatype Ping = Ping(sender: int, handle: string, isGroup: bool, limit: int)
  {
    function Pair(): Pair {
      PairCascade.Pair(sender, handle)
    }
  }

  function Quota(sender: int): Pair {
    Pair(sender, DISTINCT_GROUPS)
  }

  predicate LooksSeen(w: Window, p: Pair, at: Pair -> set<nat>)
    requires |w.slots| > 0
  {
    at(p) <= w.slots[0]
  }

  /** A group that does not look seen is charged first; only then, and for every other handle, the pair is asked for. */
  function Charged(w: Window, p: Ping, at: Pair -> set<nat>): (w': Window)
    requires |w.slots| > 0
    ensures |w'.slots| == |w.slots|
  {
    if p.isGroup && !LooksSeen(w, p.Pair(), at) then AfterAsk(w, Quota(p.sender), MAX_DISTINCT, Distinct, at) else w
  }

  predicate Refused(w: Window, p: Ping, at: Pair -> set<nat>)
    requires |w.slots| > 0
  {
    p.isGroup && !LooksSeen(w, p.Pair(), at) && SlotFor(w, Quota(p.sender), MAX_DISTINCT, at).None?
  }

  function PurposeOf(w: Window, p: Ping, at: Pair -> set<nat>): Purpose
    requires |w.slots| > 0
  {
    if p.isGroup then Group(!LooksSeen(w, p.Pair(), at)) else Ordinary
  }

  function AfterPing(w: Window, p: Ping, at: Pair -> set<nat>): (w': Window)
    requires |w.slots| > 0
    ensures |w'.slots| == |w.slots|
  {
    if Refused(w, p, at) then w else AfterAsk(Charged(w, p, at), p.Pair(), p.limit, PurposeOf(w, p, at), at)
  }

  predicate Passes(w: Window, p: Ping, at: Pair -> set<nat>)
    requires |w.slots| > 0
  {
    !Refused(w, p, at) && SlotFor(Charged(w, p, at), p.Pair(), p.limit, at).Some?
  }

  function AfterPings(maxSlots: nat, pings: seq<Ping>, at: Pair -> set<nat>): (w: Window)
    requires maxSlots > 0
    ensures |w.slots| == maxSlots
  {
    if pings == [] then Opening(maxSlots)
    else AfterPing(AfterPings(maxSlots, pings[..|pings| - 1], at), pings[|pings| - 1], at)
  }

  lemma WellChargedGrows(log: seq<Grant>, at: Pair -> set<nat>, g: Grant)
    requires WellCharged(log, at)
    requires g.purpose == Distinct ==> g.pair.handle == DISTINCT_GROUPS && g.limit == MAX_DISTINCT
    requires g.purpose == Group(false) ==> forall k | k in at(g.pair) :: MarkedBy(log, at, 0, k)
    requires g.purpose == Group(true) ==> ChargedGroups(log, g.pair.sender) < Charges(log, g.pair.sender)
    requires g.purpose == Group(true) ==> g.pair.handle !in Groups(log, g.pair.sender)
    ensures WellCharged(log + [g], at)
    ensures g.purpose == Distinct ==> ChargedGroups(log + [g], g.pair.sender) < Charges(log + [g], g.pair.sender)
  {
    hide MarkedBy, Groups;
    var log' := log + [g];
    assert log'[..|log|] == log;
    forall i | 0 <= i < |log'| && log'[i].purpose == Group(false) ensures LookedTaken(log', at, i) {
      if i < |log| { assert log'[..i] == log[..i] && LookedTaken(log, at, i); }
    }
    forall i | 0 <= i < |log'| && log'[i].purpose == Group(true) ensures IsFirst(log', i) {
      if i < |log| { assert log'[..i] == log[..i] && IsFirst(log, i); }
    }
    forall s ensures ChargedGroups(log', s) <= Charges(log', s) {
      assert ChargedGroups(log, s) <= Charges(log, s);
    }
  }

  /** A pair whose first slot does not hold it was never granted. */
  lemma UnseenIsNew(w: Window, p: Pair, at: Pair -> set<nat>)
    requires Inv(w.slots, w.log, at) && |w.slots| > 0 && !LooksSeen(w, p, at)
    ensures p.handle !in Groups(w.log, p.sender)
  {
    assert forall i | 0 <= i < |w.log| :: SlotsContain(w.slots, at(w.log[i].pair), w.log[i].slot);
  }

  lemma SeenIsMarked(w: Window, p: Pair, at: Pair -> set<nat>)
    requires Inv(w.slots, w.log, at) && |w.slots| > 0 && LooksSeen(w, p, at)
    ensures forall k | k in at(p) :: MarkedBy(w.log, at, 0, k)
  {
  }

  /** Asking keeps the books right, given what the purpose claims. */
  lemma AskKeepsCharges(w: Window, pair: Pair, limit: int, purpose: Purpose, at: Pair -> set<nat>)
    requires Inv(w.slots, w.log, at) && WellCharged(w.log, at)
    requires purpose == Distinct ==> pair.handle == DISTINCT_GROUPS && limit == MAX_DISTINCT
    requires purpose == Group(false) ==> forall k | k in at(pair) :: MarkedBy(w.log, at, 0, k)
    requires purpose == Group(true) ==> ChargedGroups(w.log, pair.sender) < Charges(w.log, pair.sender)
    requires purpose == Group(true) ==> pair.handle !in Groups(w.log, pair.sender)
    ensures var w' := AfterAsk(w, pair, limit, purpose, at);
            && Inv(w'.slots, w'.log, at) && WellCharged(w'.log, at)
            && (purpose == Distinct && SlotFor(w, pair, limit, at).Some? ==>
                  && ChargedGroups(w'.log, pair.sender) < Charges(w'.log, pair.sender)
                  && Groups(w'.log, pair.sender) == Groups(w.log, pair.sender))
  {
    hide Inv, WellCharged, Charges, ChargedGroups, MarkedBy, Groups;
    AskKeepsInv(w, pair, limit, purpose, at);
    if SlotFor(w, pair, limit, at).Some? {
      var g := Grant(pair, SlotFor(w, pair, limit, at).value, limit, purpose);
      WellChargedGrows(w.log, at, g);
      GroupsSnoc(w.log + [g], pair.sender);
      assert (w.log + [g])[..|w.log|] == w.log;
    }
  }

  lemma PingKeepsInv(w: Window, p: Ping, at: Pair -> set<nat>)
    requires |w.slots| > 0 && Inv(w.slots, w.log, at) && WellCharged(w.log, at)
    ensures var w' := AfterPing(w, p, at); Inv(w'.slots, w'.log, at) && WellCharged(w'.log, at)
  {
    hide Inv, WellCharged, Charges, ChargedGroups, MarkedBy, AfterAsk, SlotFor, Groups, LooksSeen;
    if !Refused(w, p, at) {
      if p.isGroup {
        if LooksSeen(w, p.Pair(), at) {
          SeenIsMarked(w, p.Pair(), at);
        } else {
          UnseenIsNew(w, p.Pair(), at);
          AskKeepsCharges(w, Quota(p.sender), MAX_DISTINCT, Distinct, at);
        }
      }
      AskKeepsCharges(Charged(w, p, at), p.Pair(), p.limit, PurposeOf(w, p, at), at);
    }
  }

  /** Whatever is pinged in a window, every grant is exact and the books are right. */
  lemma {:induction false} PingsKeepInv(maxSlots: nat, pings: seq<Ping>, at: Pair -> set<nat>)
    requires maxSlots > 0
    ensures var w := AfterPings(maxSlots, pings, at); Inv(w.slots, w.log, at) && WellCharged(w.log, at)
  {
    hide Inv, WellCharged, AfterPing;
    if pings == [] {
      EmptyWindowInv(Opening(maxSlots).slots, at);
      NothingCharged(at);
    } else {
      var n := |pings| - 1;
      PingsKeepInv(maxSlots, pings[..n], at);
      PingKeepsInv(AfterPings(maxSlots, pings[..n], at), pings[n], at);
    }
  }

  lemma NothingCharged(at: Pair -> set<nat>)
    ensures WellCharged([], at)
  {
  }

  /** Over every sequence of pings the sender's distinct groups number its charged grants and its bypasses. */
  lemma GroupsOfPings(maxSlots: nat, pings: seq<Ping>, at: Pair -> set<nat>, sender: int)
    requires maxSlots > 0
    ensures var log := AfterPings(maxSlots, pings, at).log;
            |Groups(log, sender)| == ChargedGroups(log, sender) + Bypasses(log, sender)
              && ChargedGroups(log, sender) <= MAX_DISTINCT
  {
    var w := AfterPings(maxSlots, pings, at);
    PingsKeepInv(maxSlots, pings, at);
    DistinctGroupsCount(w.log, at, sender, maxSlots);
  }

  /** Once the ten charges are used, a group is granted exactly when its first slot looks taken and a slot within the
      pair limit is free. */
  lemma OutOfChargesIff(w: Window, p: Ping, at: Pair -> set<nat>)
    requires Inv(w.slots, w.log, at) && WellCharged(w.log, at) && |w.slots| >= MAX_DISTINCT
    requires p.isGroup && Charges(w.log, p.sender) == MAX_DISTINCT
    ensures Passes(w, p, at) <==> LooksSeen(w, p.Pair(), at) && SlotFor(w, p.Pair(), p.limit, at).Some?
  {
    hide Inv, FirstFree;
    ChargesWithinCount(w.log, p.sender);
    if SlotFor(w, Quota(p.sender), MAX_DISTINCT, at).Some? {
      Bounded(w.slots, w.log, at, Quota(p.sender), Depth(MAX_DISTINCT, |w.slots|));
      assert false;
    }
  }

  // ---------- the cap is not kept in general ----------

  function Name(c: char, n: nat): (s: string)
    ensures |s| == n && forall i | 0 <= i < n :: s[i] == c
  {
    if n == 0 then "" else Name(c, n - 1) + [c]
  }

  /** Sender 1 pings eleven ordinary handles, then sender 0 eleven groups that look the same. */
  function SpreadPing(i: nat): Ping
    requires i < 22
  {
    if i < 11 then Ping(1, Name('o', i + 1), false, 3) else Ping(0, Name('g', i - 10), true, 3)
  }

  function SpreadPings(k: nat): (pings: seq<Ping>)
    requires k <= 22
    ensures |pings| == k
    ensures forall i | 0 <= i < k :: pings[i] == SpreadPing(i)
  {
    seq(k, i requires 0 <= i < k => SpreadPing(i))
  }

  /** A keyed hash under which the four probes of a pair coincide, in a filter of the least size. */
  function LengthHash(): (nat, Pair) -> Probe {
    (key: nat, p: Pair) => Probe(|p.handle| % UINT64, 8 * FLOOR_BYTES)
  }

  function ByLength(): Pair -> set<nat> {
    At(LengthHash(), 0, SlotBits(FLOOR_BYTES))
  }

  lemma LengthPositions(p: Pair)
    requires |p.handle| < 12
    ensures ByLength()(p) == {|p.handle|}
  {
    var n, h := SlotBits(FLOOR_BYTES), |p.handle|;
    var probe := Probe(h, 8 * FLOOR_BYTES);
    assert n == 8_388_608 && HashPair(LengthHash(), 0, p) == probe;
    forall i | 0 <= i < 4 ensures Index(probe, i, n) == h {
      assert i == 0 || i == 1 || i == 2 || i == 3;
    }
    assert Positions(probe, n) == {h} by { assert Index(probe, 0, n) == h; }
  }

  /** The slots after `k` of the pings. */
  predicate SpreadSlots(slots: seq<set<nat>>, k: nat) {
    && |slots| == 10
    && slots[0] == UpTo(if k < 11 then k else 11)
    && slots[1] == UpTo(if k < 11 then 0 else k - 11)
  }

  /** The first free slot is the first or the second. */
  lemma SpreadSlot(w: Window, p: Pair, at: Pair -> set<nat>)
    requires |w.slots| == 10 && !(at(p) <= w.slots[1])
    ensures SlotFor(w, p, 3, at) == Some(if at(p) <= w.slots[0] then 1 else 0)
  {
    var s := if at(p) <= w.slots[0] then 1 else 0;
    assert Depth(3, 10) == 3;
    FirstFreeIs(w.slots, at(p), 3, s);
  }

  lemma UpToNext(n: nat)
    ensures UpTo(n + 1) == UpTo(n) + {n + 1}
  {
  }

  lemma SpreadOrdinary(w: Window, i: nat)
    requires i < 11 && SpreadSlots(w.slots, i)
    ensures SpreadSlots(AfterPing(w, SpreadPing(i), ByLength()).slots, i + 1)
    ensures AfterPing(w, SpreadPing(i), ByLength()).log == w.log + [Grant(SpreadPing(i).Pair(), 0, 3, Ordinary)]
  {
    hide ByLength, SlotFor, Name;
    var p := SpreadPing(i).Pair();
    LengthPositions(p);
    SpreadSlot(w, p, ByLength());
    UpToNext(i);
  }

  lemma SpreadGroup(w: Window, i: nat)
    requires 11 <= i < 22 && SpreadSlots(w.slots, i)
    ensures SpreadSlots(AfterPing(w, SpreadPing(i), ByLength()).slots, i + 1)
    ensures AfterPing(w, SpreadPing(i), ByLength()).log == w.log + [Grant(SpreadPing(i).Pair(), 1, 3, Group(false))]
  {
    hide ByLength, SlotFor, Name, UpTo;
    var p := SpreadPing(i).Pair();
    LengthPositions(p);
    SpreadSlot(w, p, ByLength());
    assert LooksSeen(w, p, ByLength());
    UpToNext(i - 11);
  }

  lemma SpreadStep(w: Window, i: nat)
    requires i < 22 && SpreadSlots(w.slots, i)
    ensures SpreadSlots(AfterPing(w, SpreadPing(i), ByLength()).slots, i + 1)
    ensures AfterPing(w, SpreadPing(i), ByLength()).log
         == w.log + [if i < 11 then Grant(SpreadPing(i).Pair(), 0, 3, Ordinary)
                     else Grant(SpreadPing(i).Pair(), 1, 3, Group(false))]
  {
    hide ByLength, AfterPing, Name;
    if i < 11 { SpreadOrdinary(w, i); } else { SpreadGroup(w, i); }
  }

  lemma {:induction false} SpreadRun(k: nat)
    requires k <= 22
    ensures var w := AfterPings(10, SpreadPings(k), ByLength());
            && SpreadSlots(w.slots, k)
            && Groups(w.log, 0) == Names(if k < 11 then 0 else k - 11) && Charges(w.log, 0) == 0
  {
    hide ByLength, AfterPing, Name;
    if k > 0 {
      SpreadRun(k - 1);
      var w := AfterPings(10, SpreadPings(k - 1), ByLength());
      assert SpreadPings(k)[..k - 1] == SpreadPings(k - 1);
      SpreadStep(w, k - 1);
      var w' := AfterPing(w, SpreadPing(k - 1), ByLength());
      assert w'.log[..|w.log|] == w.log;
      GroupsSnoc(w'.log, 0);
      if k > 11 { NamesSnoc(k - 11); }
    }
  }

  function Names(n: nat): set<string> {
    set i | 0 < i <= n :: Name('g', i)
  }

  lemma NamesSnoc(n: nat)
    requires n > 0
    ensures Names(n) == Names(n - 1) + {Name('g', n)} && Name('g', n) !in Names(n - 1)
  {
    hide Name;
  }

  lemma {:induction false} NamesCount(n: nat)
    ensures |Names(n)| == n
  {
    hide Name;
    if n > 0 {
      NamesCount(n - 1);
      NamesSnoc(n);
    }
  }

  /** The cap of ten can be passed: from an empty window, under this hash, twenty-two pings to nonempty handles of one
      kind each let a sender who is never charged reach eleven groups. */
  lemma CapCanBePassed()
    ensures var log := AfterPings(10, SpreadPings(22), ByLength()).log;
            |Groups(log, 0)| == 11 > MAX_DISTINCT && Charges(log, 0) == 0
    ensures forall i | 0 <= i < 22 :: SpreadPings(22)[i].handle != "" && SpreadPings(22)[i].handle != DISTINCT_GROUPS
    ensures forall i, j | 0 <= i < 22 && 0 <= j < 22 && SpreadPings(22)[i].handle == SpreadPings(22)[j].handle ::
              SpreadPings(22)[i].isGroup == SpreadPings(22)[j].isGroup
  {
    SpreadRun(22);
    NamesCount(11);
    SpreadHandles();
  }

  lemma SpreadHandles()
    ensures forall i | 0 <= i < 22 :: SpreadPing(i).handle != "" && SpreadPing(i).handle != DISTINCT_GROUPS
    ensures forall i, j | 0 <= i < 22 && 0 <= j < 22 && SpreadPing(i).handle == SpreadPing(j).handle ::
              SpreadPing(i).isGroup == SpreadPing(j).isGroup
  {
    hide Name;
    forall i | 0 <= i < 22
      ensures 0 < |SpreadPing(i).handle| < 12 && SpreadPing(i).handle[0] == if i < 11 then 'o' else 'g'
    {
    }
  }
}
