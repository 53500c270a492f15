/** The chat bot's per-channel and per-user cooldowns, kept in maps of bounded size. */
module ChatBot {
  import opened Bits

  type Key = string

  datatype Limits = Limits(channelCooldown: int, userCooldown: int, maxUsers: int)
  {
    predicate Valid() {
      channelCooldown > 0 && userCooldown > 0 && maxUsers > 0
    }
  }

  datatype Event = Event(channel: Key, user: Key, time: int)

  datatype Cooldowns = Cooldowns(channels: map<Key, int>, users: map<Key, int>)

  predicate Blocked(m: map<Key, int>, key: Key, now: int, cooldown: int) {
    key in m && now - m[key] < cooldown
  }

  function Pruned(m: map<Key, int>, now: int, cooldown: int): map<Key, int> {
    map k | k in m && now - m[k] < cooldown :: m[k]
  }

  /** `k` has a least time in `m`. */
  predicate Oldest(m: map<Key, int>, k: Key) {
    k in m && forall j | j in m :: m[k] <= m[j]
  }

  /** Room for a user: prune a full map, then evict an oldest entry if it is still full. */
  ghost predicate UserRoom(m: map<Key, int>, now: int, l: Limits, m': map<Key, int>) {
    if |m| < l.maxUsers then m' == m
    else
      var p := Pruned(m, now, l.userCooldown);
      if |p| < l.maxUsers then m' == p else exists k :: Oldest(p, k) && m' == p - {k}
  }

  /** Room for a channel: as for users, but any entry may be evicted. */
  ghost predicate ChannelRoom(m: map<Key, int>, now: int, l: Limits, m': map<Key, int>) {
    if |m| < l.maxUsers then m' == m
    else
      var p := Pruned(m, now, l.channelCooldown);
      if |p| < l.maxUsers then m' == p else exists k :: k in p && m' == p - {k}
  }

  predicate Free(s: Cooldowns, e: Event, l: Limits) {
    && !Blocked(s.channels, e.channel, e.time, l.channelCooldown)
    && !Blocked(s.users, e.user, e.time, l.userCooldown)
  }

  /** A trigger is answered exactly when neither cooldown blocks it, and only then recorded. */
  ghost predicate Handled(s: Cooldowns, e: Event, l: Limits, s': Cooldowns, replied: bool) {
    && replied == Free(s, e, l)
    && (!replied ==> s' == s)
    && (replied ==> exists cs, us :: Recorded(s, e, l, cs, us, s'))
  }

  ghost predicate Recorded(s: Cooldowns, e: Event, l: Limits, cs: map<Key, int>, us: map<Key, int>, s': Cooldowns) {
    && ChannelRoom(s.channels, e.time, l, cs)
    && UserRoom(s.users, e.time, l, us)
    && s' == Cooldowns(cs[e.channel := e.time], us[e.user := e.time])
  }

  // ---------- what pruning changes ----------

  /** An expired entry blocks nobody, now or later. */
  lemma PruningChangesNoDecision(m: map<Key, int>, now: int, later: int, cooldown: int, key: Key)
    requires now <= later
    ensures Blocked(Pruned(m, now, cooldown), key, later, cooldown) == Blocked(m, key, later, cooldown)
  {
  }

  // ---------- histories ----------

  predicate Ordered(h: seq<Event>) {
    forall i, j | 0 <= i <= j < |h| :: h[i].time <= h[j].time
  }

  /** The users answered at `t` or later. */
  function UsersSince(h: seq<Event>, t: int): set<Key> {
    set i | 0 <= i < |h| && h[i].time >= t :: h[i].user
  }

  /** The channels answered after `t`. */
  function ChannelsAfter(h: seq<Event>, t: int): set<Key> {
    set i | 0 <= i < |h| && h[i].time > t :: h[i].channel
  }

  predicate Crowd(h: seq<Event>, t: int, max: int) {
    |UsersSince(h, t)| > max
  }

  /** The `k`-th answer came when more than `max` channels had been answered within one cooldown. */
  predicate ChannelCrowd(h: seq<Event>, k: nat, l: Limits)
    requires k < |h|
  {
    |ChannelsAfter(h[..k + 1], h[k].time - l.channelCooldown)| > l.maxUsers
  }

  ghost predicate HasUserAt(h: seq<Event>, user: Key, t: int) {
    exists i :: 0 <= i < |h| && h[i].user == user && h[i].time == t
  }

  ghost predicate HasChannelAt(h: seq<Event>, channel: Key, t: int) {
    exists i :: 0 <= i < |h| && h[i].channel == channel && h[i].time == t
  }

  /** Every entry is an answer that was given. */
  ghost predicate Grounded(s: Cooldowns, h: seq<Event>) {
    && (forall k | k in s.users :: HasUserAt(h, k, s.users[k]))
    && (forall k | k in s.channels :: HasChannelAt(h, k, s.channels[k]))
  }

  predicate UserKept(s: Cooldowns, h: seq<Event>, i: nat, l: Limits)
    requires i < |h|
  {
    || (h[i].user in s.users && s.users[h[i].user] >= h[i].time)
    || h[|h| - 1].time - h[i].time >= l.userCooldown
    || Crowd(h, h[i].time, l.maxUsers)
  }

  ghost predicate ChannelKept(s: Cooldowns, h: seq<Event>, i: nat, l: Limits)
    requires i < |h|
  {
    || (h[i].channel in s.channels && s.channels[h[i].channel] >= h[i].time)
    || h[|h| - 1].time - h[i].time >= l.channelCooldown
    || exists k :: i < k < |h| && ChannelCrowd(h, k, l)
  }

  ghost predicate Kept(s: Cooldowns, h: seq<Event>, l: Limits) {
    forall i | 0 <= i < |h| :: UserKept(s, h, i, l) && ChannelKept(s, h, i, l)
  }

  predicate Bounded(s: Cooldowns, l: Limits) {
    |s.channels| <= l.maxUsers && |s.users| <= l.maxUsers
  }

  /** A user answered twice within the cooldown means that more than `maxUsers` users were answered from the
      first of the two answers on. */
  ghost predicate UsersSpaced(h: seq<Event>, l: Limits) {
    forall i, j | 0 <= i < j < |h| && h[i].user == h[j].user && h[j].time - h[i].time < l.userCooldown ::
      Crowd(h[..j], h[i].time, l.maxUsers)
  }

  ghost predicate ChannelsSpaced(h: seq<Event>, l: Limits) {
    forall i, j | 0 <= i < j < |h| && h[i].channel == h[j].channel && h[j].time - h[i].time < l.channelCooldown ::
      exists k :: i < k < j && ChannelCrowd(h, k, l)
  }

  ghost predicate Inv(s: Cooldowns, h: seq<Event>, l: Limits) {
    && l.Valid() && Ordered(h) && Bounded(s, l) && Grounded(s, h) && Kept(s, h, l)
    && UsersSpaced(h, l) && ChannelsSpaced(h, l)
  }

  // ---------- every answer keeps it ----------

  lemma RoomIsBounded(m: map<Key, int>, now: int, l: Limits, m': map<Key, int>, key: Key)
    requires l.Valid() && |m| <= l.maxUsers
    requires UserRoom(m, now, l, m') || ChannelRoom(m, now, l, m')
    ensures |m'[key := now]| <= l.maxUsers
  {
    RoomIsSmaller(m, now, l, m');
    assert m'[key := now].Keys == m'.Keys + {key};
  }

  lemma RoomIsSmaller(m: map<Key, int>, now: int, l: Limits, m': map<Key, int>)
    requires l.Valid() && |m| <= l.maxUsers
    requires UserRoom(m, now, l, m') || ChannelRoom(m, now, l, m')
    ensures |m'| < l.maxUsers
  {
    hide Pruned;
    if |m| >= l.maxUsers {
      PrunedSize(m, now, l.userCooldown);
      PrunedSize(m, now, l.channelCooldown);
      var p := Pruned(m, now, if UserRoom(m, now, l, m') then l.userCooldown else l.channelCooldown);
      if |p| >= l.maxUsers {
        var k :| k in p && m' == p - {k};
        OneLess(p, k);
      }
    }
  }

  lemma OneLess(p: map<Key, int>, k: Key)
    requires k in p
    ensures |p - {k}| == |p| - 1
  {
    assert (p - {k}).Keys == p.Keys - {k};
  }

  lemma PrunedSize(m: map<Key, int>, now: int, cooldown: int)
    ensures |Pruned(m, now, cooldown)| <= |m|
  {
    assert Pruned(m, now, cooldown).Keys <= m.Keys;
    SubsetCount(Pruned(m, now, cooldown).Keys, m.Keys);
  }

  /** What making room leaves of an entry: it is still there, it had expired, or it was the oldest of a full map
      of unexpired entries. */
  lemma UserRoomKeeps(m: map<Key, int>, now: int, l: Limits, m': map<Key, int>, key: Key)
    requires UserRoom(m, now, l, m') && key in m
    ensures || (key in m' && m'[key] == m[key])
            || now - m[key] >= l.userCooldown
            || (|Pruned(m, now, l.userCooldown)| >= l.maxUsers && Oldest(Pruned(m, now, l.userCooldown), key))
    ensures forall k | k in m' :: k in m && m'[k] == m[k]
  {
  }

  lemma ChannelRoomKeeps(m: map<Key, int>, now: int, l: Limits, m': map<Key, int>, key: Key)
    requires ChannelRoom(m, now, l, m') && key in m
    ensures || (key in m' && m'[key] == m[key])
            || now - m[key] >= l.channelCooldown
            || |Pruned(m, now, l.channelCooldown)| >= l.maxUsers
    ensures forall k | k in m' :: k in m && m'[k] == m[k]
  {
  }

  lemma PrunedKeeps(m: map<Key, int>, now: int, cooldown: int, k: Key)
    requires k in Pruned(m, now, cooldown)
    ensures k in m && Pruned(m, now, cooldown)[k] == m[k]
  {
  }

  /** A full map of unexpired entries, all at `t` or later, and one user more. */
  lemma EvictionNeedsCrowd(s: Cooldowns, h: seq<Event>, e: Event, l: Limits, t: int)
    requires Grounded(s, h) && Free(s, e, l)
    requires |Pruned(s.users, e.time, l.userCooldown)| >= l.maxUsers
    requires forall k | k in Pruned(s.users, e.time, l.userCooldown) :: s.users[k] >= t
    requires e.time >= t
    ensures Crowd(h + [e], t, l.maxUsers)
  {
    var p, since := Pruned(s.users, e.time, l.userCooldown), UsersSince(h + [e], t);
    assert e.user !in p;
    hide Pruned;
    forall k | k in p ensures k in since {
      PrunedKeeps(s.users, e.time, l.userCooldown, k);
      var i :| 0 <= i < |h| && h[i].user == k && h[i].time == s.users[k];
      assert (h + [e])[i] == h[i];
    }
    assert (h + [e])[|h|] == e;
    SubsetCount(p.Keys + {e.user}, since);
  }

  lemma ChannelEvictionNeedsCrowd(s: Cooldowns, h: seq<Event>, e: Event, l: Limits)
    requires Grounded(s, h) && Free(s, e, l) && l.Valid()
    requires |Pruned(s.channels, e.time, l.channelCooldown)| >= l.maxUsers
    ensures ChannelCrowd(h + [e], |h|, l)
  {
    var t := e.time - l.channelCooldown;
    var p, after := Pruned(s.channels, e.time, l.channelCooldown), ChannelsAfter(h + [e], t);
    assert (h + [e])[..|h| + 1] == h + [e];
    assert e.channel !in p;
    forall k | k in p ensures k in after {
      var i :| 0 <= i < |h| && h[i].channel == k && h[i].time == s.channels[k];
      assert (h + [e])[i] == h[i];
    }
    assert (h + [e])[|h|] == e;
    SubsetCount(p.Keys + {e.channel}, after);
  }

  lemma CrowdGrows(h: seq<Event>, e: Event, t: int, max: int)
    requires Crowd(h, t, max)
    ensures Crowd(h + [e], t, max)
  {
    forall u | u in UsersSince(h, t) ensures u in UsersSince(h + [e], t) {
      var i :| 0 <= i < |h| && h[i].time >= t && h[i].user == u;
      assert (h + [e])[i] == h[i];
    }
    SubsetCount(UsersSince(h, t), UsersSince(h + [e], t));
  }

  lemma ChannelCrowdStays(h: seq<Event>, e: Event, k: nat, l: Limits)
    requires k < |h|
    ensures ChannelCrowd(h + [e], k, l) == ChannelCrowd(h, k, l)
  {
    assert (h + [e])[..k + 1] == h[..k + 1];
  }

  lemma UserStaysKept(s: Cooldowns, h: seq<Event>, e: Event, l: Limits, us: map<Key, int>, s': Cooldowns, i: nat)
    requires Grounded(s, h) && Free(s, e, l) && l.Valid() && Ordered(h + [e])
    requires UserRoom(s.users, e.time, l, us) && s'.users == us[e.user := e.time]
    requires i < |h| && UserKept(s, h, i, l)
    ensures UserKept(s', h + [e], i, l)
  {
    hide UserRoom;
    var h' := h + [e];
    assert h'[i] == h[i] && h'[|h|] == e && h'[|h| - 1] == h[|h| - 1];
    assert h[|h| - 1].time <= e.time;
    if Crowd(h, h[i].time, l.maxUsers) {
      CrowdGrows(h, e, h[i].time, l.maxUsers);
    } else if h[i].user in s.users && s.users[h[i].user] >= h[i].time {
      var key := h[i].user;
      UserRoomKeeps(s.users, e.time, l, us, key);
      if |Pruned(s.users, e.time, l.userCooldown)| >= l.maxUsers &&
          Oldest(Pruned(s.users, e.time, l.userCooldown), key) {
        EvictionNeedsCrowd(s, h, e, l, h[i].time);
      }
    }
  }

  lemma ChannelStaysKept(s: Cooldowns, h: seq<Event>, e: Event, l: Limits, cs: map<Key, int>, s': Cooldowns, i: nat)
    requires Grounded(s, h) && Free(s, e, l) && l.Valid() && Ordered(h + [e])
    requires ChannelRoom(s.channels, e.time, l, cs) && s'.channels == cs[e.channel := e.time]
    requires i < |h| && ChannelKept(s, h, i, l)
    ensures ChannelKept(s', h + [e], i, l)
  {
    hide ChannelRoom, ChannelCrowd;
    var h' := h + [e];
    assert h'[i] == h[i] && h'[|h|] == e && h'[|h| - 1] == h[|h| - 1];
    assert h[|h| - 1].time <= e.time;
    if k :| i < k < |h| && ChannelCrowd(h, k, l) {
      ChannelCrowdStays(h, e, k, l);
    } else if h[i].channel in s.channels && s.channels[h[i].channel] >= h[i].time {
      ChannelRoomKeeps(s.channels, e.time, l, cs, h[i].channel);
      if |Pruned(s.channels, e.time, l.channelCooldown)| >= l.maxUsers {
        ChannelEvictionNeedsCrowd(s, h, e, l);
      }
    }
  }

  lemma NewIsKept(s': Cooldowns, h: seq<Event>, e: Event, l: Limits)
    requires e.user in s'.users && s'.users[e.user] == e.time
    requires e.channel in s'.channels && s'.channels[e.channel] == e.time
    ensures UserKept(s', h + [e], |h|, l) && ChannelKept(s', h + [e], |h|, l)
  {
    assert (h + [e])[|h|] == e;
  }

  lemma StaysKept(s: Cooldowns, h: seq<Event>, e: Event, l: Limits, cs: map<Key, int>, us: map<Key, int>, s': Cooldowns)
    requires Grounded(s, h) && Kept(s, h, l) && Free(s, e, l) && l.Valid() && Ordered(h + [e])
    requires Recorded(s, e, l, cs, us, s')
    ensures Kept(s', h + [e], l)
  {
    hide UserKept, ChannelKept, UserRoom, ChannelRoom, Free, Grounded, Ordered;
    forall i | 0 <= i < |h + [e]| ensures UserKept(s', h + [e], i, l) && ChannelKept(s', h + [e], i, l) {
      if i < |h| {
        UserStaysKept(s, h, e, l, us, s', i);
        ChannelStaysKept(s, h, e, l, cs, s', i);
      } else {
        NewIsKept(s', h, e, l);
      }
    }
  }

  lemma StaysGrounded(s: Cooldowns, h: seq<Event>, e: Event, l: Limits, cs: map<Key, int>, us: map<Key, int>,
                      s': Cooldowns)
    requires Grounded(s, h) && Recorded(s, e, l, cs, us, s')
    ensures Grounded(s', h + [e])
  {
    var h' := h + [e];
    assert h'[|h|] == e;
    forall k | k in s'.users ensures HasUserAt(h', k, s'.users[k]) {
      if k != e.user {
        var i :| 0 <= i < |h| && h[i].user == k && h[i].time == s.users[k];
        assert h'[i] == h[i];
      }
    }
    forall k | k in s'.channels ensures HasChannelAt(h', k, s'.channels[k]) {
      if k != e.channel {
        var i :| 0 <= i < |h| && h[i].channel == k && h[i].time == s.channels[k];
        assert h'[i] == h[i];
      }
    }
  }

  lemma UsersStaySpaced(s: Cooldowns, h: seq<Event>, e: Event, l: Limits)
    requires Kept(s, h, l) && Free(s, e, l) && UsersSpaced(h, l) && Ordered(h + [e])
    ensures UsersSpaced(h + [e], l)
  {
    hide Crowd;
    var h' := h + [e];
    forall i, j | 0 <= i < j < |h'| && h'[i].user == h'[j].user && h'[j].time - h'[i].time < l.userCooldown
      ensures Crowd(h'[..j], h'[i].time, l.maxUsers)
    {
      assert h'[i] == h[i];
      if j < |h| {
        assert h'[j] == h[j] && h'[..j] == h[..j];
      } else {
        assert h'[..j] == h && h'[j] == e && h'[|h| - 1] == h[|h| - 1];
        assert h[|h| - 1].time <= e.time;
        assert UserKept(s, h, i, l);
      }
    }
  }

  lemma ChannelsStaySpaced(s: Cooldowns, h: seq<Event>, e: Event, l: Limits)
    requires Kept(s, h, l) && Free(s, e, l) && ChannelsSpaced(h, l) && Ordered(h + [e])
    ensures ChannelsSpaced(h + [e], l)
  {
    hide ChannelCrowd;
    var h' := h + [e];
    forall i, j | 0 <= i < j < |h'| && h'[i].channel == h'[j].channel && h'[j].time - h'[i].time < l.channelCooldown
      ensures exists k :: i < k < j && ChannelCrowd(h', k, l)
    {
      assert h'[i] == h[i];
      if j < |h| {
        assert h'[j] == h[j];
        var k :| i < k < j && ChannelCrowd(h, k, l);
        ChannelCrowdStays(h, e, k, l);
      } else {
        assert h'[j] == e && h'[|h| - 1] == h[|h| - 1];
        assert h[|h| - 1].time <= e.time;
        assert ChannelKept(s, h, i, l);
        var k :| i < k < |h| && ChannelCrowd(h, k, l);
        ChannelCrowdStays(h, e, k, l);
      }
    }
  }

  /** A message handled keeps the invariant; an answered one joins the history. */
  lemma HandledKeepsInv(s: Cooldowns, h: seq<Event>, e: Event, l: Limits, s': Cooldowns, replied: bool)
    requires Inv(s, h, l) && Handled(s, e, l, s', replied)
    requires forall i | 0 <= i < |h| :: h[i].time <= e.time
    ensures Inv(s', if replied then h + [e] else h, l)
  {
    hide Kept, Grounded, UsersSpaced, ChannelsSpaced, Free, UserRoom, ChannelRoom;
    if replied {
      var cs, us :| Recorded(s, e, l, cs, us, s');
      assert Ordered(h + [e]);
      RoomIsBounded(s.channels, e.time, l, cs, e.channel);
      RoomIsBounded(s.users, e.time, l, us, e.user);
      StaysKept(s, h, e, l, cs, us, s');
      StaysGrounded(s, h, e, l, cs, us, s');
      UsersStaySpaced(s, h, e, l);
      ChannelsStaySpaced(s, h, e, l);
    }
  }

  // ---------- runs ----------

  /** `states[k + 1]` and `replies[k]` are what the `k`-th message leads to. */
  ghost predicate Run(states: seq<Cooldowns>, messages: seq<Event>, replies: seq<bool>, l: Limits) {
    && |states| == |messages| + 1 && |replies| == |messages|
    && l.Valid() && Ordered(messages)
    && states[0] == Cooldowns(map[], map[])
    && forall k | 0 <= k < |messages| :: Handled(states[k], messages[k], l, states[k + 1], replies[k])
  }

  function Answered(messages: seq<Event>, replies: seq<bool>): seq<Event>
    requires |messages| == |replies|
  {
    if messages == [] then []
    else
      var n := |messages| - 1;
      Answered(messages[..n], replies[..n]) + (if replies[n] then [messages[n]] else [])
  }

  lemma {:induction false} AnsweredBefore(messages: seq<Event>, replies: seq<bool>, t: int)
    requires |messages| == |replies| && forall i | 0 <= i < |messages| :: messages[i].time <= t
    ensures forall e | e in Answered(messages, replies) :: e.time <= t
  {
    if messages != [] {
      var n := |messages| - 1;
      AnsweredBefore(messages[..n], replies[..n], t);
    }
  }

  lemma AnsweredEarlier(messages: seq<Event>, replies: seq<bool>, n: nat)
    requires Ordered(messages) && n < |messages| == |replies|
    ensures var h := Answered(messages[..n], replies[..n]);
            forall i | 0 <= i < |h| :: h[i].time <= messages[n].time
  {
    var h := Answered(messages[..n], replies[..n]);
    AnsweredBefore(messages[..n], replies[..n], messages[n].time);
    assert forall i | 0 <= i < |h| :: h[i] in h;
  }

  /** In every run both maps stay within the limit, and the answers are spaced. */
  lemma {:induction false} RunKeepsInv(states: seq<Cooldowns>, messages: seq<Event>, replies: seq<bool>, l: Limits)
    requires Run(states, messages, replies, l)
    ensures Inv(states[|messages|], Answered(messages, replies), l)
  {
    hide Handled, Inv;
    if messages == [] {
      EmptyInv(l);
    } else {
      var n := |messages| - 1;
      assert Run(states[..n + 1], messages[..n], replies[..n], l);
      RunKeepsInv(states[..n + 1], messages[..n], replies[..n], l);
      var h := Answered(messages[..n], replies[..n]);
      AnsweredEarlier(messages, replies, n);
      HandledKeepsInv(states[n], h, messages[n], l, states[n + 1], replies[n]);
      assert h + [] == h;
    }
  }

  lemma EmptyInv(l: Limits)
    requires l.Valid()
    ensures Inv(Cooldowns(map[], map[]), [], l)
  {
  }

  /** In every run, where at most `maxUsers` users are answered from one answer to a user until the next, that
      next answer to the same user comes a whole cooldown later. */
  lemma NoUserTwice(states: seq<Cooldowns>, messages: seq<Event>, replies: seq<bool>, l: Limits, i: nat, j: nat)
    requires Run(states, messages, replies, l)
    requires i < j < |Answered(messages, replies)|
    requires var h := Answered(messages, replies);
             h[i].user == h[j].user && |UsersSince(h[..j], h[i].time)| <= l.maxUsers
    ensures var h := Answered(messages, replies);
            h[j].time - h[i].time >= l.userCooldown
  {
    hide Handled, Kept, Grounded, Answered, Bounded, ChannelsSpaced;
    RunKeepsInv(states, messages, replies, l);
    assert UsersSpaced(Answered(messages, replies), l);
  }

  lemma {:induction false} AnsweredIndex(messages: seq<Event>, replies: seq<bool>, i: nat) returns (k: nat)
    requires |messages| == |replies| && i < |Answered(messages, replies)|
    ensures k < |messages| && replies[k] && messages[k] == Answered(messages, replies)[i]
  {
    var n := |messages| - 1;
    if i < |Answered(messages[..n], replies[..n])| {
      k := AnsweredIndex(messages[..n], replies[..n], i);
    } else {
      k := n;
    }
  }

  /** The channel or the user of message `k` was answered less than its cooldown before. */
  ghost predicate TooSoon(messages: seq<Event>, replies: seq<bool>, l: Limits, k: nat)
    requires |messages| == |replies| && k < |messages|
  {
    exists i :: 0 <= i < k && replies[i] && CoolsDown(messages[i], messages[k], l)
  }

  predicate CoolsDown(e: Event, f: Event, l: Limits) {
    || (e.channel == f.channel && f.time - e.time < l.channelCooldown)
    || (e.user == f.user && f.time - e.time < l.userCooldown)
  }

  /** In every run a trigger is refused only for a reason: an earlier answer that still cools down. */
  lemma RefusalHasReason(states: seq<Cooldowns>, messages: seq<Event>, replies: seq<bool>, l: Limits, k: nat)
    requires Run(states, messages, replies, l) && k < |messages| && !replies[k]
    ensures TooSoon(messages, replies, l, k)
  {
    hide Kept, UsersSpaced, ChannelsSpaced, Answered;
    var h := Answered(messages[..k], replies[..k]);
    assert Run(states[..k + 1], messages[..k], replies[..k], l);
    RunKeepsInv(states[..k + 1], messages[..k], replies[..k], l);
    assert Handled(states[k], messages[k], l, states[k + 1], replies[k]);
    var s, e := states[k], messages[k];
    if Blocked(s.channels, e.channel, e.time, l.channelCooldown) {
      var i :| 0 <= i < |h| && h[i].channel == e.channel && h[i].time == s.channels[e.channel];
      var j := AnsweredIndex(messages[..k], replies[..k], i);
      assert replies[j] && CoolsDown(messages[j], e, l);
    } else {
      var i :| 0 <= i < |h| && h[i].user == e.user && h[i].time == s.users[e.user];
      var j := AnsweredIndex(messages[..k], replies[..k], i);
      assert replies[j] && CoolsDown(messages[j], e, l);
    }
  }

  // ---------- the bot ----------

  /** Deletes the expired entries one by one. */
  method Prune(m: map<Key, int>, now: int, cooldown: int) returns (p: map<Key, int>)
    ensures p == Pruned(m, now, cooldown)
  {
    p := m;
    var left := m.Keys;
    while left != {}
      invariant left <= m.Keys
      invariant p == map k | k in m && (k in left || now - m[k] < cooldown) :: m[k]
      decreases |left|
    {
      var k :| k in left;
      left := left - {k};
      if now - m[k] >= cooldown {
        p := p - {k};
      }
    }
  }

  /** The first entry seen, then every earlier one. */
  method FindOldest(m: map<Key, int>) returns (oldest: Key)
    requires |m| > 0
    ensures Oldest(m, oldest)
  {
    oldest := "";
    var first := true;
    var left := m.Keys;
    assert left != {};
    while left != {}
      invariant left <= m.Keys && (first ==> left == m.Keys)
      invariant !first ==> oldest in m && forall j | j in m && j !in left :: m[oldest] <= m[j]
      decreases |left|
    {
      var k :| k in left;
      left := left - {k};
      if first || m[k] < m[oldest] {
        oldest := k;
        first := false;
      }
    }
  }

  const SECOND: int := 1_000_000_000

  /** A configured value, or the default if it is not positive. */
  function Positive(configured: int, otherwise: int): (v: int)
    requires otherwise > 0
    ensures v > 0
  {
    if configured <= 0 then otherwise else configured
  }

  class Bot {
    const channelCooldown: int
    const userCooldown: int
    const maxTrackedUsers: int
    var channelCooldowns: map<Key, int>
    var userCooldowns: map<Key, int>

    constructor (channelCooldown: int, userCooldown: int, maxTrackedUsers: int)
      ensures Effective() == Limits(Positive(channelCooldown, 15 * SECOND), Positive(userCooldown, 60 * SECOND),
                                    Positive(maxTrackedUsers, 10000))
      ensures State() == Cooldowns(map[], map[])
    {
      this.channelCooldown := Positive(channelCooldown, 15 * SECOND);
      this.userCooldown := Positive(userCooldown, 60 * SECOND);
      this.maxTrackedUsers := Positive(maxTrackedUsers, 10000);
      channelCooldowns, userCooldowns := map[], map[];
    }

    /** The configured limits, or the defaults where they are not positive. */
    function Effective(): (l: Limits)
      ensures l.Valid()
    {
      Limits(Positive(channelCooldown, 15 * SECOND), Positive(userCooldown, 60 * SECOND),
             Positive(maxTrackedUsers, 10000))
    }

    function State(): Cooldowns
      reads this
    {
      Cooldowns(channelCooldowns, userCooldowns)
    }

    method MakeUserRoom(now: int)
      modifies `userCooldowns
      ensures UserRoom(old(userCooldowns), now, Effective(), userCooldowns)
    {
      var l := Effective();
      if |userCooldowns| >= l.maxUsers {
        userCooldowns := Prune(userCooldowns, now, l.userCooldown);
        if |userCooldowns| >= l.maxUsers {
          var oldest := FindOldest(userCooldowns);
          userCooldowns := userCooldowns - {oldest};
        }
      }
    }

    method MakeChannelRoom(now: int)
      modifies `channelCooldowns
      ensures ChannelRoom(old(channelCooldowns), now, Effective(), channelCooldowns)
    {
      var l := Effective();
      if |channelCooldowns| >= l.maxUsers {
        channelCooldowns := Prune(channelCooldowns, now, l.channelCooldown);
        if |channelCooldowns| >= l.maxUsers {
          assert channelCooldowns.Keys != {};
          var k :| k in channelCooldowns.Keys;
          channelCooldowns := channelCooldowns - {k};
        }
      }
    }

    /** `words` are the fields of the message text in lower case; the keys are the platform with the channel
        and with the user, in lower case. */
    method HandleMessage(words: seq<string>, channelKey: Key, userKey: Key, now: int) returns (replied: bool)
      modifies `channelCooldowns, `userCooldowns
      ensures if words != [] && words[0] in ["!halp", "!appreciate", "!cheers"]
              then Handled(old(State()), Event(channelKey, userKey, now), Effective(), State(), replied)
              else !replied && State() == old(State())
    {
      hide ChannelRoom, UserRoom;
      if words == [] || (words[0] != "!halp" && words[0] != "!appreciate" && words[0] != "!cheers") {
        return false;
      }
      var l := Effective();
      if Blocked(channelCooldowns, channelKey, now, l.channelCooldown) {
        return false;
      }
      if Blocked(userCooldowns, userKey, now, l.userCooldown) {
        return false;
      }
      MakeChannelRoom(now);
      MakeUserRoom(now);
      ghost var channels, users := channelCooldowns, userCooldowns;
      channelCooldowns := channelCooldowns[channelKey := now];
      userCooldowns := userCooldowns[userKey := now];
      assert Recorded(old(State()), Event(channelKey, userKey, now), l, channels, users, State());
      replied := true;
    }
  }
}
