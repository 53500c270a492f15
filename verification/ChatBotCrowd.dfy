/** The bounds on the chat bot's maps are tight: with one user and one channel more than a map holds, the first of
    them is answered again within both cooldowns. */
module ChatBotCrowd {
  import opened ChatBot

  function Name(i: nat): (s: Key)
    ensures |s| == i + 1 && forall j | 0 <= j <= i :: s[j] == 'u'
  {
    if i == 0 then "u" else Name(i - 1) + "u"
  }

  lemma NamesDiffer(i: nat, j: nat)
    ensures Name(i) == Name(j) <==> i == j
  {
    hide Name;
  }

  function Time(k: nat): int {
    if k == 0 then 0 else 1
  }

  /** The first `k` keys, each with the time it was answered. */
  function Tracked(k: nat): map<Key, int> {
    if k == 0 then map[] else Tracked(k - 1)[Name(k - 1) := Time(k - 1)]
  }

  /** One of the first `k` keys. */
  predicate IsKey(s: Key, k: nat) {
    0 < |s| <= k && s == Name(|s| - 1)
  }

  lemma KeyOf(i: nat, k: nat)
    ensures IsKey(Name(i), k) <==> i < k
  {
  }

  lemma NextKey(k: nat)
    ensures forall s :: IsKey(s, k + 1) <==> IsKey(s, k) || s == Name(k)
    ensures forall s | IsKey(s, k) :: |s| > 0
    ensures forall s :: !IsKey(s, 0)
  {
    hide Name;
    forall s ensures IsKey(s, k + 1) <==> IsKey(s, k) || s == Name(k) {
      assert |Name(k)| == k + 1;
      if |s| == k + 1 { assert Name(|s| - 1) == Name(k); }
    }
  }

  lemma {:induction false} TrackedHolds(k: nat)
    ensures |Tracked(k)| == k
    ensures forall s :: s in Tracked(k) <==> IsKey(s, k)
    ensures forall s | s in Tracked(k) :: |s| > 0 && Tracked(k)[s] == Time(|s| - 1)
  {
    hide Name, IsKey;
    NextKey(if k > 0 then k - 1 else 0);
    if k > 0 {
      TrackedHolds(k - 1);
      KeyOf(k - 1, k - 1);
      assert Tracked(k).Keys == Tracked(k - 1).Keys + {Name(k - 1)};
    }
  }

  /** Either map after `k` messages; the first key is lost when one key too many comes. */
  function Held(n: nat, k: nat): map<Key, int>
    requires n > 0
  {
    if k <= n then Tracked(k)
    else if k == n + 1 then Tracked(n + 1) - {Name(0)}
    else (Tracked(n + 1) - {Name(0)} - {Name(1)})[Name(0) := 1]
  }

  /** `n + 1` keys, and then the first again. */
  function Message(n: nat, k: nat): Event {
    var key := Name(if k == n + 1 then 0 else k);
    Event(key, key, Time(k))
  }

  /** Making room for one key more in a map that is not full. */
  lemma EarlyStep(l: Limits, k: nat)
    requires l.Valid() && k < l.maxUsers
    ensures Handled(Cooldowns(Held(l.maxUsers, k), Held(l.maxUsers, k)), Message(l.maxUsers, k), l,
                    Cooldowns(Held(l.maxUsers, k + 1), Held(l.maxUsers, k + 1)), true)
  {
    hide Name, IsKey;
    TrackedHolds(k);
    TrackedHolds(k + 1);
    KeyOf(k, k);
    var m := Held(l.maxUsers, k);
    assert Recorded(Cooldowns(m, m), Message(l.maxUsers, k), l, m, m,
                    Cooldowns(Held(l.maxUsers, k + 1), Held(l.maxUsers, k + 1)));
  }

  /** A full map in which nothing has expired loses an oldest key. */
  lemma FullRoom(m: map<Key, int>, l: Limits, key: Key)
    requires l.Valid() && |m| == l.maxUsers && l.userCooldown > 1 && l.channelCooldown > 1
    requires forall k | k in m :: 0 <= m[k] <= 1
    requires Oldest(m, key)
    ensures UserRoom(m, 1, l, m - {key}) && ChannelRoom(m, 1, l, m - {key})
  {
    assert Pruned(m, 1, l.userCooldown) == m && Pruned(m, 1, l.channelCooldown) == m;
  }

  lemma FullStep(m: map<Key, int>, l: Limits, oldest: Key, e: Event)
    requires l.Valid() && |m| == l.maxUsers && l.userCooldown > 1 && l.channelCooldown > 1
    requires forall k | k in m :: 0 <= m[k] <= 1
    requires Oldest(m, oldest) && e.channel == e.user && e.user !in m && e.time == 1
    ensures var m' := (m - {oldest})[e.user := 1];
            Handled(Cooldowns(m, m), e, l, Cooldowns(m', m'), true)
  {
    hide UserRoom, ChannelRoom;
    FullRoom(m, l, oldest);
    var r := m - {oldest};
    assert Recorded(Cooldowns(m, m), e, l, r, r, Cooldowns(r[e.user := 1], r[e.user := 1]));
  }

  lemma NewKeyStep(l: Limits)
    requires l.Valid() && l.userCooldown > 1 && l.channelCooldown > 1
    ensures var n: nat := l.maxUsers;
            Handled(Cooldowns(Held(n, n), Held(n, n)), Message(n, n), l, Cooldowns(Held(n, n + 1), Held(n, n + 1)),
                    true)
  {
    hide Handled, Name, IsKey;
    var n: nat := l.maxUsers;
    var m := Tracked(n);
    TrackedHolds(n);
    KeyOf(0, n);
    KeyOf(n, n);
    FullStep(m, l, Name(0), Message(n, n));
    NamesDiffer(0, n);
    DropOther(m, Name(0), Name(n));
  }

  lemma DropOther(m: map<Key, int>, a: Key, b: Key)
    requires a != b
    ensures (m - {a})[b := 1] == m[b := 1] - {a}
  {
  }

  lemma FirstKeyStep(l: Limits)
    requires l.Valid() && l.userCooldown > 1 && l.channelCooldown > 1
    ensures var n: nat := l.maxUsers;
            Handled(Cooldowns(Held(n, n + 1), Held(n, n + 1)), Message(n, n + 1), l,
                    Cooldowns(Held(n, n + 2), Held(n, n + 2)), true)
  {
    hide Handled, Name, IsKey, Tracked;
    var n: nat := l.maxUsers;
    var m := Tracked(n + 1) - {Name(0)};
    TrackedHolds(n + 1);
    KeyOf(0, n + 1);
    KeyOf(1, n + 1);
    NamesDiffer(0, 1);
    assert m.Keys == Tracked(n + 1).Keys - {Name(0)};
    FirstIsShort(n);
    FullStep(m, l, Name(1), Message(n, n + 1));
  }

  /** Every key but the first was answered at 1. */
  lemma FirstIsShort(n: nat)
    ensures forall s | IsKey(s, n + 1) && s != Name(0) :: Time(|s| - 1) == 1
    ensures Time(|Name(1)| - 1) == 1
  {
  }

  function States(n: nat): (s: seq<Cooldowns>)
    requires n > 0
    ensures |s| == n + 3
  {
    seq(n + 3, k requires 0 <= k < n + 3 => Cooldowns(Held(n, k), Held(n, k)))
  }

  function Messages(n: nat): (s: seq<Event>)
    ensures |s| == n + 2
  {
    seq(n + 2, k requires 0 <= k < n + 2 => Message(n, k))
  }

  function Replies(n: nat): (s: seq<bool>)
    ensures |s| == n
  {
    seq(n, k => true)
  }

  lemma {:induction false} AllAnswered(messages: seq<Event>)
    ensures Answered(messages, Replies(|messages|)) == messages
  {
    if messages != [] {
      var n := |messages| - 1;
      AllAnswered(messages[..n]);
      assert Replies(n + 1)[..n] == Replies(n);
    }
  }

  lemma {:induction false} UsersCounted(n: nat, k: nat)
    requires k <= n + 1
    ensures UsersSince(Messages(n)[..k], 0) == Tracked(k).Keys == ChannelsAfter(Messages(n)[..k], -1)
  {
    hide Name;
    if k > 0 {
      UsersCounted(n, k - 1);
      SinceSnoc(Messages(n)[..k - 1], Message(n, k - 1));
      assert Messages(n)[..k] == Messages(n)[..k - 1] + [Message(n, k - 1)];
    }
  }

  lemma SinceSnoc(h: seq<Event>, e: Event)
    requires e.time >= 0
    ensures UsersSince(h + [e], 0) == UsersSince(h, 0) + {e.user}
    ensures ChannelsAfter(h + [e], -1) == ChannelsAfter(h, -1) + {e.channel}
  {
    var h' := h + [e];
    assert h'[|h|] == e && forall i | 0 <= i < |h| :: h'[i] == h[i];
  }

  lemma CrowdIsRun(l: Limits)
    requires l.Valid() && l.userCooldown > 1 && l.channelCooldown > 1
    ensures var n: nat := l.maxUsers; Run(States(n), Messages(n), Replies(n + 2), l)
  {
    hide Handled, Name, Held, Tracked, IsKey, Message;
    var n: nat := l.maxUsers;
    NothingHeld(n);
    Ends(n);
    forall k | 0 <= k < n + 2 ensures Handled(States(n)[k], Messages(n)[k], l, States(n)[k + 1], Replies(n + 2)[k]) {
      if k < n { EarlyStep(l, k); } else if k == n { NewKeyStep(l); } else { FirstKeyStep(l); }
    }
  }

  /** The last answer goes to the first one's user and channel within both cooldowns, and the answers before it went to
      just one user and one channel more than the limit. */
  predicate AgainTooSoon(h: seq<Event>, l: Limits) {
    && |h| > 1
    && var first, last, before := h[0], h[|h| - 1], h[..|h| - 1];
       && last.user == first.user && last.time - first.time < l.userCooldown
       && last.channel == first.channel && last.time - first.time < l.channelCooldown
       && |UsersSince(before, first.time)| == l.maxUsers + 1
       && |ChannelsAfter(before, first.time - 1)| == l.maxUsers + 1
  }

  lemma CrowdIsTooSoon(l: Limits)
    requires l.Valid() && l.userCooldown > 1 && l.channelCooldown > 1
    ensures AgainTooSoon(Messages(l.maxUsers), l)
  {
    hide Name, Tracked, UsersSince, ChannelsAfter, Message;
    var n: nat := l.maxUsers;
    var h := Messages(n);
    Ends(n);
    UsersCounted(n, n + 1);
    TrackedSize(n + 1);
    assert h[0].time == 0 && h[n + 1].time == 1;
  }

  lemma TrackedSize(k: nat)
    ensures |Tracked(k).Keys| == k
  {
    TrackedHolds(k);
  }

  /** Main result: for every limit there is a run in which `maxUsers + 1` users and channels are answered, and the first
      user, in the first channel, is then answered again within both cooldowns. */
  lemma LimitIsTight(l: Limits)
    requires l.Valid() && l.userCooldown > 1 && l.channelCooldown > 1
    ensures var n: nat := l.maxUsers;
            && Run(States(n), Messages(n), Replies(n + 2), l)
            && Answered(Messages(n), Replies(n + 2)) == Messages(n) && AgainTooSoon(Messages(n), l)
  {
    hide Run, States, Answered, AgainTooSoon;
    CrowdIsRun(l);
    CrowdIsTooSoon(l);
    AllAnswered(Messages(l.maxUsers));
  }

  lemma Ends(n: nat)
    requires n > 0
    ensures Message(n, 0).user == Message(n, n + 1).user && Message(n, 0).channel == Message(n, n + 1).channel
    ensures Message(n, 0).time == 0 && forall k: nat | k > 0 :: Message(n, k).time == 1
  {
    hide Name;
  }

  lemma NothingHeld(n: nat)
    requires n > 0
    ensures Held(n, 0) == map[]
  {
  }
}
