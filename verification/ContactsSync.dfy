/** The contacts sync protocol: many clients run fetch, merge, compare-and-set and retry
    (web/core/src/contacts.ts:239-279) against one versioned blob
    (server/internal/http/contacts.go:185-263). Sealing is an ideal inverse pair, so the server's blob is
    the list it was sealed from. */
module ContactsSync {
  import opened Contacts
  import opened Wrappers

  /** The stored row; without a row the version is 0 and the list empty. */
  datatype Server = Server(version: nat, entries: seq<Entry>)

  /** One account of a client's progress. `own` is what it brought in, `seen` the number of commits its
      last fetch saw, and `since` their number when it started. */
  datatype Client =
    | Ready(working: seq<Entry>, attempt: nat, own: Option<View>, seen: nat, since: nat)
    | Merged(working: seq<Entry>, attempt: nat, mine: View, seen: nat, since: nat, ifMatch: nat)
    | Done(version: nat, entries: seq<Entry>)
    | Failed(exhausted: bool, since: nat)

  datatype Commit = Commit(client: nat, own: View)

  datatype System = System(server: Server, clients: map<nat, Client>, log: seq<Commit>)

  datatype Op =
    | Start(local: seq<Entry>)
    | Fetch(today: int, merged: seq<Entry>)
    | Put
    | PutReplyLost
    | Abort

  ghost predicate CanStart(s: System, c: nat) {
    c in s.clients ==> s.clients[c].Done? || s.clients[c].Failed?
  }

  /** The compare-and-set of the update endpoint. */
  function Update(server: Server, ifMatch: nat, entries: seq<Entry>): Option<Server> {
    if server.version != ifMatch then None else Some(Server(server.version + 1, entries))
  }

  /** One step of client `c`. Every step reads or writes the server at most once. */
  ghost predicate Step(s: System, c: nat, op: Op, s': System, maxRetries: nat) {
    match op
    case Start(local) =>
      CanStart(s, c) && s' == s.(clients := s.clients[c := Ready(local, 0, None, |s.log|, |s.log|)])
    case Fetch(today, merged) =>
      c in s.clients && s.clients[c].Ready? && today > 0 &&
      var k := s.clients[c];
      IsMerge(k.working, s.server.entries, today, merged) &&
      var mine := if k.own.Some? then k.own.value else ViewOf(k.working, today);
      s' == s.(clients := s.clients[c := Merged(merged, k.attempt, mine, |s.log|, k.since, s.server.version)])
    case Put =>
      c in s.clients && s.clients[c].Merged? &&
      var k := s.clients[c];
      (match Update(s.server, k.ifMatch, k.working)
       case Some(server) =>
         s' == System(server, s.clients[c := Done(server.version, k.working)], s.log + [Commit(c, k.mine)])
       case None =>
         s' == s.(clients := s.clients[c :=
           if k.attempt < maxRetries then Ready(k.working, k.attempt + 1, Some(k.mine), k.seen, k.since)
           else Failed(true, k.since)]))
    case PutReplyLost =>
      c in s.clients && s.clients[c].Merged? &&
      var k := s.clients[c];
      Update(s.server, k.ifMatch, k.working).Some? &&
      s' == System(Update(s.server, k.ifMatch, k.working).value, s.clients[c := Failed(false, k.since)],
                   s.log + [Commit(c, k.mine)])
    case Abort =>
      c in s.clients && s' == s.(clients := s.clients[c := Failed(false, |s.log|)])
  }

  ghost predicate Advances(s: System, s': System, maxRetries: nat) {
    exists c, op :: Step(s, c, op, s', maxRetries)
  }

  /** Nobody syncing, and any server contents that a merge could have made: one entry per handle, trimmed and dated, as
      in the empty list of an account that has stored nothing. */
  ghost predicate Init(s: System) {
    Canonical(s.server.entries) && s.clients == map[] && s.log == []
  }

  /** A run: `states[i + 1]` is a step after `states[i]`. */
  ghost predicate IsRun(states: seq<System>, maxRetries: nat) {
    states != [] && Init(states[0]) &&
    forall i | 0 <= i < |states| - 1 :: Advances(states[i], states[i + 1], maxRetries)
  }

  // ---------- the invariant ----------

  function Base(s: Server): View {
    ViewOf(s.entries, 1)
  }

  /** The initial view with everything the first commits brought in. */
  function Accumulated(v: View, log: seq<Commit>): View {
    if log == [] then v else Join(Accumulated(v, log[..|log| - 1]), log[|log| - 1].own)
  }

  ghost predicate ClientInv(v: View, v0: nat, log: seq<Commit>, c: nat, k: Client, maxRetries: nat) {
    match k
    case Ready(working, attempt, own, seen, since) =>
      since <= seen <= |log| && since + attempt <= |log| && attempt <= maxRetries &&
      (own.None? ==> attempt == 0 && seen == since) &&
      (own.Some? ==> attempt > 0 && Canonical(working) && seen < |log| &&
                     ViewOf(working, 1) == Join(own.value, Accumulated(v, log[..seen])))
    case Merged(working, attempt, mine, seen, since, ifMatch) =>
      since + attempt <= seen <= |log| && attempt <= maxRetries && ifMatch == v0 + seen && Canonical(working) &&
      ViewOf(working, 1) == Join(mine, Accumulated(v, log[..seen])) &&
      (forall i | seen <= i < |log| :: log[i].client != c)
    case Done(version, entries) =>
      v0 < version <= v0 + |log| && Canonical(entries) && ViewOf(entries, 1) == Accumulated(v, log[..version - v0])
    case Failed(exhausted, since) =>
      exhausted ==> since + maxRetries < |log|
  }

  ghost predicate Inv(s0: System, s: System, maxRetries: nat) {
    s.server.version == s0.server.version + |s.log| &&
    Canonical(s.server.entries) &&
    Base(s.server) == Accumulated(Base(s0.server), s.log) &&
    forall c | c in s.clients :: ClientInv(Base(s0.server), s0.server.version, s.log, c, s.clients[c], maxRetries)
  }

  lemma {:induction false} AccumulatedGrows(v: View, log: seq<Commit>, n: nat)
    requires n <= |log|
    ensures Leq(Accumulated(v, log[..n]), Accumulated(v, log))
  {
    if n == |log| {
      assert log[..n] == log;
    } else {
      var last := |log| - 1;
      AccumulatedGrows(v, log[..last], n);
      assert log[..last][..n] == log[..n];
      JoinIsLeast(Accumulated(v, log[..last]), log[last].own, Accumulated(v, log));
      LeqIsOrder(Accumulated(v, log[..n]), Accumulated(v, log[..last]), Accumulated(v, log));
    }
  }

  /** Another client's commit leaves a client's invariant in place. */
  lemma ClientInvGrows(v: View, v0: nat, log: seq<Commit>, c: nat, k: Client, maxRetries: nat, e: Commit)
    requires ClientInv(v, v0, log, c, k, maxRetries) && (k.Merged? ==> e.client != c)
    ensures ClientInv(v, v0, log + [e], c, k, maxRetries)
  {
    var log' := log + [e];
    if k.Ready? || k.Merged? { assert log'[..k.seen] == log[..k.seen]; }
    if k.Done? { assert log'[..k.version - v0] == log[..k.version - v0]; }
  }

  /** What a merge makes of the working list, seen from the server's history. */
  lemma MergeAddsHistory(s0: System, s: System, c: nat, today: int, merged: seq<Entry>, maxRetries: nat)
    requires Inv(s0, s, maxRetries) && c in s.clients && s.clients[c].Ready?
    requires IsMerge(s.clients[c].working, s.server.entries, today, merged)
    ensures var k := s.clients[c];
            var mine := if k.own.Some? then k.own.value else ViewOf(k.working, today);
            ViewOf(merged, 1) == Join(mine, Accumulated(Base(s0.server), s.log))
  {
    var k, v := s.clients[c], Base(s0.server);
    hide ViewOf, Join, Accumulated, EntryView;
    CanonicalViewAnyDay(merged, today, 1);
    CanonicalViewAnyDay(s.server.entries, today, 1);
    var now := Accumulated(v, s.log);
    JoinLaws(now, ViewOf(k.working, today), now);
    if k.own.Some? {
      var past, own := Accumulated(v, s.log[..k.seen]), k.own.value;
      CanonicalViewAnyDay(k.working, today, 1);
      AccumulatedGrows(v, s.log, k.seen);
      JoinLaws(own, past, now);
      JoinLaws(past, now, now);
    }
  }

  lemma StepKeepsInv(s0: System, s: System, c: nat, op: Op, s': System, maxRetries: nat)
    requires Inv(s0, s, maxRetries) && Step(s, c, op, s', maxRetries)
    ensures Inv(s0, s', maxRetries)
  {
    hide ViewOf, Join, Canonical, IsMerge;
    var v, v0 := Base(s0.server), s0.server.version;
    match op
    case Start(local) =>
    case Abort =>
    case Fetch(today, merged) =>
      MergeAddsHistory(s0, s, c, today, merged, maxRetries);
      MergeIsCanonical(s.clients[c].working, s.server.entries, today, merged);
      assert s.log[..|s.log|] == s.log;
    case Put =>
      if s.server.version == s.clients[c].ifMatch {
        CommitKeepsInv(s0, s, c, s', maxRetries);
      }
    case PutReplyLost =>
      CommitKeepsInv(s0, s, c, s', maxRetries);
  }

  lemma MergeIsCanonical(local: seq<Entry>, remote: seq<Entry>, today: int, out: seq<Entry>)
    requires IsMerge(local, remote, today, out)
    ensures Canonical(out)
  {
  }

  lemma CommitKeepsInv(s0: System, s: System, c: nat, s': System, maxRetries: nat)
    requires Inv(s0, s, maxRetries) && c in s.clients && s.clients[c].Merged?
    requires s.server.version == s.clients[c].ifMatch
    requires s'.server == Server(s.server.version + 1, s.clients[c].working)
    requires s'.log == s.log + [Commit(c, s.clients[c].mine)]
    requires s'.clients == s.clients[c := Done(s.server.version + 1, s.clients[c].working)]
          || s'.clients == s.clients[c := Failed(false, s.clients[c].since)]
    ensures Inv(s0, s', maxRetries)
  {
    var k, v, v0 := s.clients[c], Base(s0.server), s0.server.version;
    var e := Commit(c, k.mine);
    assert s.log[..k.seen] == s.log && s'.log[..|s.log|] == s.log && s'.log[..|s'.log|] == s'.log;
    JoinLaws(k.mine, Accumulated(v, s.log), k.mine);
    hide ViewOf, Join, Canonical;
    assert Accumulated(v, s'.log) == Join(Accumulated(v, s.log), k.mine);
    forall d | d in s'.clients && d != c
      ensures ClientInv(v, v0, s'.log, d, s'.clients[d], maxRetries)
    {
      ClientInvGrows(v, v0, s.log, d, s.clients[d], maxRetries, e);
    }
  }

  // ---------- over whole runs ----------

  lemma {:induction false} RunKeepsInv(states: seq<System>, maxRetries: nat, i: nat)
    requires IsRun(states, maxRetries) && i < |states|
    ensures Inv(states[0], states[i], maxRetries)
  {
    if i > 0 {
      RunKeepsInv(states, maxRetries, i - 1);
      assert Advances(states[i - 1], states[i - 1 + 1], maxRetries);
      var c, op :| Step(states[i - 1], c, op, states[i], maxRetries);
      hide Inv, Step;
      StepKeepsInv(states[0], states[i - 1], c, op, states[i], maxRetries);
    }
  }

  lemma {:induction false} LogGrows(states: seq<System>, maxRetries: nat, i: nat, j: nat)
    requires IsRun(states, maxRetries) && i <= j < |states|
    ensures states[i].log <= states[j].log
  {
    if i < j {
      LogGrows(states, maxRetries, i, j - 1);
      assert Advances(states[j - 1], states[j - 1 + 1], maxRetries);
      var c, op :| Step(states[j - 1], c, op, states[j], maxRetries);
      assert states[j - 1].log <= states[j].log;
    }
  }

  /** Main result: no update is lost. Versions count the commits; the server's view only grows; and it
      stays above everything any client has committed. */
  lemma NoLostUpdate(states: seq<System>, maxRetries: nat, i: nat, j: nat, k: nat)
    requires IsRun(states, maxRetries) && i <= j < |states|
    ensures states[j].server.version - states[i].server.version == |states[j].log| - |states[i].log| >= 0
    ensures Leq(Base(states[i].server), Base(states[j].server))
    ensures k < |states[i].log| ==> Leq(states[i].log[k].own, Base(states[j].server))
  {
    var v, log, log' := Base(states[0].server), states[i].log, states[j].log;
    RunKeepsInv(states, maxRetries, i);
    RunKeepsInv(states, maxRetries, j);
    LogGrows(states, maxRetries, i, j);
    assert log'[..|log|] == log;
    AccumulatedGrows(v, log', |log|);
    if k < |log| {
      assert log'[..k + 1][..k] == log'[..k] && log[k] == log'[k];
      AccumulatedGrows(v, log', k + 1);
      JoinIsLeast(Accumulated(v, log'[..k]), log[k].own, Accumulated(v, log'[..k + 1]));
      LeqIsOrder(log[k].own, Accumulated(v, log'[..k + 1]), Accumulated(v, log'));
    }
  }

  ghost predicate Brought(v: View, log: seq<Commit>, h: string, s: Stamp) {
    (h in v && v[h] == s) || exists k :: 0 <= k < |log| && h in log[k].own && log[k].own[h] == s
  }

  /** Nothing is invented: at every moment of every run each stamp on the server was there at first or some
      commit brought it in. */
  lemma NothingInvented(states: seq<System>, maxRetries: nat, i: nat, h: string)
    requires IsRun(states, maxRetries) && i < |states| && h in Base(states[i].server)
    ensures Brought(Base(states[0].server), states[i].log, h, Base(states[i].server)[h])
  {
    RunKeepsInv(states, maxRetries, i);
    StampHasOrigin(Base(states[0].server), states[i].log, h);
  }

  lemma {:induction false} StampHasOrigin(v: View, log: seq<Commit>, h: string)
    requires h in Accumulated(v, log)
    ensures Brought(v, log, h, Accumulated(v, log)[h])
  {
    if log != [] {
      var last, s := |log| - 1, Accumulated(v, log)[h];
      var before := Accumulated(v, log[..last]);
      if h in before && s == before[h] {
        StampHasOrigin(v, log[..last], h);
        if !(h in v && v[h] == s) {
          var k :| 0 <= k < |log[..last]| && h in log[..last][k].own && log[..last][k].own[h] == s;
          assert log[k] == log[..last][k];
        }
      } else {
        assert h in log[last].own && log[last].own[h] == s;
      }
    }
  }

  /** A finished sync returns exactly the server's contents at its commit: everything before it, joined
      with what the client brought. */
  lemma DoneHasEverything(states: seq<System>, maxRetries: nat, i: nat, c: nat)
    requires IsRun(states, maxRetries) && i < |states|
    requires c in states[i].clients && states[i].clients[c].Done?
    ensures var k, v0 := states[i].clients[c], states[0].server.version;
            v0 < k.version <= v0 + |states[i].log| &&
            ViewOf(k.entries, 1) == Accumulated(Base(states[0].server), states[i].log[..k.version - v0])
  {
    RunKeepsInv(states, maxRetries, i);
    assert ClientInv(Base(states[0].server), states[0].server.version, states[i].log, c, states[i].clients[c],
                     maxRetries);
  }

  /** Progress: a compare-and-set fails only because some other client's succeeded after the fetch, and a
      client gives up only after more than `maxRetries` commits since it started. */
  lemma ConflictMeansProgress(states: seq<System>, maxRetries: nat, i: nat, c: nat)
    requires IsRun(states, maxRetries) && i < |states| && c in states[i].clients
    ensures var k := states[i].clients[c];
            (k.Merged? && k.ifMatch != states[i].server.version ==>
               k.seen < |states[i].log| && states[i].log[k.seen].client != c) &&
            (k.Failed? && k.exhausted ==> |states[i].log| - k.since > maxRetries)
  {
    RunKeepsInv(states, maxRetries, i);
    assert ClientInv(Base(states[0].server), states[0].server.version, states[i].log, c, states[i].clients[c],
                     maxRetries);
  }

  // ---------- local names ----------

  /** A live local entry that has a name. */
  predicate HasName(e: Entry) {
    Trim(e.handle) != "" && e.nickname != "" && !e.deleted
  }

  /** Where a list has a named local entry's handle live and of its day, it has its name. */
  ghost predicate KeepsNames(local: seq<Entry>, list: seq<Entry>, today: int) {
    forall i, j | 0 <= i < |local| && 0 <= j < |list| && HasName(local[i]) && IsFor(list[j], Trim(local[i].handle)) ::
      DayOf(list[j], today) == DayOf(local[i], today) && !list[j].deleted ==> list[j].nickname == local[i].nickname
  }

  ghost predicate HasSince(list: seq<Entry>, h: string, today: int, day: int) {
    exists k :: 0 <= k < |list| && IsFor(list[k], h) && DayOf(list[k], today) >= day
  }

  /** The list has the handle of each named local entry, of its day or later. */
  ghost predicate Covers(local: seq<Entry>, list: seq<Entry>, today: int) {
    forall i | 0 <= i < |local| && HasName(local[i]) ::
      HasSince(list, Trim(local[i].handle), today, DayOf(local[i], today))
  }

  lemma LocalKeepsNames(local: seq<Entry>, today: int)
    requires OnePerHandle(local)
    ensures KeepsNames(local, local, today) && Covers(local, local, today)
  {
    hide Trim, DayOf;
    forall i | 0 <= i < |local| && HasName(local[i])
      ensures HasSince(local, Trim(local[i].handle), today, DayOf(local[i], today))
    {
      assert IsFor(local[i], Trim(local[i].handle));
    }
  }

  /** Merging a fetched list into one that keeps the local names keeps them. */
  lemma MergeKeepsNames(local: seq<Entry>, working: seq<Entry>, remote: seq<Entry>, today: int, out: seq<Entry>)
    requires OnePerHandle(working) && KeepsNames(local, working, today) && Covers(local, working, today)
    requires IsMerge(working, remote, today, out)
    requires forall h :: HasHandle(out, h) <==> h in AfterUpserts(map[], remote + working, today)
    ensures OnePerHandle(out) && KeepsNames(local, out, today) && Covers(local, out, today)
  {
    hide Trim, DayOf, AfterUpserts, ViewOf, Join, OnePerHandle, KeepsNames, Covers, HasSince;
    CanonicalIsOnePerHandle(out);
    forall i | 0 <= i < |local| && HasName(local[i])
      ensures HasSince(out, Trim(local[i].handle), today, DayOf(local[i], today))
    {
      MergeCovers(local, working, remote, today, out, i);
    }
    assert Covers(local, out, today) by { AllCovered(local, out, today); }
    forall i, j | 0 <= i < |local| && 0 <= j < |out| && HasName(local[i]) && IsFor(out[j], Trim(local[i].handle)) &&
        DayOf(out[j], today) == DayOf(local[i], today) && !out[j].deleted
      ensures out[j].nickname == local[i].nickname
    {
      MergeKeepsName(local, working, remote, today, out, i, j);
    }
    assert KeepsNames(local, out, today) by { AllKept(local, out, today); }
  }

  lemma AllCovered(local: seq<Entry>, out: seq<Entry>, today: int)
    requires forall i | 0 <= i < |local| && HasName(local[i]) ::
               HasSince(out, Trim(local[i].handle), today, DayOf(local[i], today))
    ensures Covers(local, out, today)
  {
    hide Trim, DayOf, HasSince;
  }

  lemma AllKept(local: seq<Entry>, out: seq<Entry>, today: int)
    requires forall i, j | 0 <= i < |local| && 0 <= j < |out| && HasName(local[i]) &&
                 IsFor(out[j], Trim(local[i].handle)) && DayOf(out[j], today) == DayOf(local[i], today) &&
                 !out[j].deleted :: out[j].nickname == local[i].nickname
    ensures KeepsNames(local, out, today)
  {
    hide Trim, DayOf;
  }

  lemma CanonicalIsOnePerHandle(list: seq<Entry>)
    requires Canonical(list)
    ensures OnePerHandle(list) && forall j | 0 <= j < |list| :: Trim(list[j].handle) == list[j].handle
  {
    forall j | 0 <= j < |list| ensures Trim(list[j].handle) == list[j].handle { TrimTrims(list[j].handle); }
    hide Trim;
  }

  lemma MergeCovers(local: seq<Entry>, working: seq<Entry>, remote: seq<Entry>, today: int, out: seq<Entry>, i: nat)
    requires Covers(local, working, today) && IsMerge(working, remote, today, out)
    requires forall h :: HasHandle(out, h) <==> h in AfterUpserts(map[], remote + working, today)
    requires i < |local| && HasName(local[i])
    ensures HasSince(out, Trim(local[i].handle), today, DayOf(local[i], today))
  {
    hide Trim, AfterUpserts, ViewOf, Join, OnDay;
    CanonicalIsOnePerHandle(out);
    var h, all := Trim(local[i].handle), remote + working;
    assert HasSince(working, h, today, DayOf(local[i], today));
    var k :| 0 <= k < |working| && IsFor(working[k], h) && DayOf(working[k], today) >= DayOf(local[i], today);
    assert all[|remote| + k] == working[k];
    LatestDecides(all, today, h);
    assert HasHandle(out, h);
    var j :| 0 <= j < |out| && out[j].handle == h;
    assert IsFor(out[j], h) && DayOf(out[j], today) >= DayOf(local[i], today);
  }

  lemma MergeKeepsName(local: seq<Entry>, working: seq<Entry>, remote: seq<Entry>, today: int, out: seq<Entry>, i: nat,
                       j: nat)
    requires OnePerHandle(working) && KeepsNames(local, working, today) && Covers(local, working, today)
    requires IsMerge(working, remote, today, out)
    requires i < |local| && j < |out| && HasName(local[i]) && IsFor(out[j], Trim(local[i].handle))
    requires DayOf(out[j], today) == DayOf(local[i], today) && !out[j].deleted
    ensures out[j].nickname == local[i].nickname
  {
    hide Trim, AfterUpserts, ViewOf, Join;
    CanonicalIsOnePerHandle(out);
    var h, all, day := Trim(local[i].handle), remote + working, DayOf(local[i], today);
    assert HasSince(working, h, today, day);
    var k :| 0 <= k < |working| && IsFor(working[k], h) && DayOf(working[k], today) >= day;
    LatestDecides(all, today, h);
    assert all[|remote| + k] == working[k] && out[j].addedDay == day;
    assert !OnDay(all, h, today, day, true);
    assert working[k].nickname == local[i].nickname;
    forall x | 0 <= x < |all| && x != |remote| + k && Trim(all[x].handle) == h
      ensures DayOf(all[x], today) < day || (DayOf(all[x], today) == day && !all[x].deleted && x < |remote| + k)
    {
      assert IsFor(all[x], h);
      if x >= |remote| { assert all[x] == working[x - |remote|]; }
    }
    NamedByLatest(all, |remote| + k, today);
  }

  // ---------- the client's loop against a store that others write to ----------

  /** The contacts row of one account. */
  class ContactsStore {
    var server: Server

    constructor ()
      ensures server == Server(0, [])
    {
      server := Server(0, []);
    }

    /** `PUT /v1/contacts` with `If-Match`. */
    method Put(ifMatch: nat, entries: seq<Entry>) returns (version: Option<nat>)
      modifies this
      ensures match Update(old(server), ifMatch, entries)
              case Some(next) => server == next && version == Some(next.version)
              case None => server == old(server) && version == None
    {
      if server.version != ifMatch {
        return None;
      }
      server := Server(server.version + 1, entries);
      version := Some(server.version);
    }

    /** Complete syncs of other clients, one after the other. */
    method OthersSync(lists: seq<seq<Entry>>, today: int)
      requires today > 0 && Canonical(server.entries)
      modifies this
      ensures server.version == old(server.version) + |lists|
      ensures Canonical(server.entries)
      ensures Base(server) == JoinAll(old(Base(server)), lists, today)
    {
      for i := 0 to |lists|
        invariant server.version == old(server.version) + i && Canonical(server.entries)
        invariant Base(server) == JoinAll(old(Base(server)), lists[..i], today)
      {
        assert lists[..i + 1][..i] == lists[..i];
        ghost var was := server.entries;
        var merged := MergeContacts(lists[i], server.entries, today);
        CanonicalViewAnyDay(was, today, 1);
        CanonicalViewAnyDay(merged, today, 1);
        var version := Put(server.version, merged);
      }
      assert lists[..|lists|] == lists;
    }

    /** The sync loop. `others[k]` is what other clients sync between this one's `k`-th fetch and `k`-th
        put. It succeeds exactly when one of its attempts is left alone. */
    method SyncContacts(local: seq<Entry>, today: int, maxRetries: nat, others: seq<seq<seq<Entry>>>)
      returns (r: Option<(nat, seq<Entry>)>)
      requires today > 0 && Canonical(server.entries) && |others| == maxRetries + 1
      modifies this
      ensures r.Some? <==> exists k :: 0 <= k <= maxRetries && others[k] == []
      ensures Canonical(server.entries)
      ensures r.Some? ==> r.value.0 == server.version && r.value.1 == server.entries
      ensures Leq(old(Base(server)), Base(server))
      ensures r.Some? ==> Leq(ViewOf(local, today), Base(server))
      ensures r.Some? && OnePerHandle(local) ==> KeepsNames(local, server.entries, today)
    {
      hide Join, ViewOf, Canonical, Leq, JoinAll, KeepsNames, Covers, OnePerHandle, IsMerge, HasHandle, AfterUpserts;
      if OnePerHandle(local) { LocalKeepsNames(local, today); }
      var working := local;
      ghost var mine, start := ViewOf(local, today), Base(server);
      LeqIsOrder(mine, mine, mine);
      LeqIsOrder(start, start, start);
      for attempt := 0 to maxRetries + 1
        invariant Canonical(server.entries) && Leq(start, Base(server))
        invariant Leq(mine, ViewOf(working, today))
        invariant OnePerHandle(local) ==>
          OnePerHandle(working) && KeepsNames(local, working, today) && Covers(local, working, today)
        invariant forall k | 0 <= k < attempt :: others[k] != []
      {
        var remote := server;
        var merged := MergeContacts(working, remote.entries, today);
        MergeViews(working, remote.entries, today, merged);
        CanonicalViewAnyDay(remote.entries, today, 1);
        CanonicalViewAnyDay(merged, today, 1);
        JoinIsLeast(Base(remote), ViewOf(working, today), ViewOf(merged, today));
        LeqIsOrder(mine, ViewOf(working, today), ViewOf(merged, today));
        LeqIsOrder(start, Base(remote), ViewOf(merged, today));
        if OnePerHandle(local) { MergeKeepsNames(local, working, remote.entries, today, merged); }
        working := merged;
        OthersSync(others[attempt], today);
        JoinAllGrows(Base(remote), others[attempt], today);
        LeqIsOrder(start, Base(remote), Base(server));
        var updated := Put(remote.version, working);
        if updated.Some? {
          return Some((updated.value, working));
        }
      }
      r := None;
    }
  }

  lemma MergeViews(local: seq<Entry>, remote: seq<Entry>, today: int, out: seq<Entry>)
    requires IsMerge(local, remote, today, out)
    ensures Canonical(out) && ViewOf(out, today) == Join(ViewOf(remote, today), ViewOf(local, today))
  {
  }

  function JoinAll(v: View, lists: seq<seq<Entry>>, today: int): View {
    if lists == [] then v else Join(JoinAll(v, lists[..|lists| - 1], today), ViewOf(lists[|lists| - 1], today))
  }

  lemma {:induction false} JoinAllGrows(v: View, lists: seq<seq<Entry>>, today: int)
    ensures Leq(v, JoinAll(v, lists, today))
  {
    if lists == [] {
      LeqIsOrder(v, v, v);
    } else {
      var n := |lists| - 1;
      JoinAllGrows(v, lists[..n], today);
      JoinIsLeast(JoinAll(v, lists[..n], today), ViewOf(lists[n], today), JoinAll(v, lists, today));
      LeqIsOrder(v, JoinAll(v, lists[..n], today), JoinAll(v, lists, today));
    }
  }
}
