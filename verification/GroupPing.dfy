/** Groups, resolver and ping together (server/internal/http/groups.go, server/internal/http/ping.go,
    server/internal/region/resolver.go): a ping to a group handle is enqueued only while the group is
    large enough and the sender belongs to it, although both verdicts may come from caches. Each request
    is one step, its transaction and invalidations together. */
module GroupPing {
  import opened Wrappers
  import opened Groups
  import R = Resolver

  type MemberCache = map<(nat, int), bool>

  datatype State = State(db: Db, cache: seq<R.Entry>, members: MemberCache)

  datatype Config = Config(capacity: nat, minSize: nat, maxPerAccount: nat, maxMembers: nat)

  datatype Op =
    | Create(a: int, name: string, invite: string, display: string, handle: string, today: int,
             created: Result<nat, GroupError>)
    | Join(a: int, invite: string, display: string, handle: string, today: int, joined: Result<nat, GroupError>)
    | Leave(g: nat, a: int, left: Result<string, GroupError>)
    | Remove(g: nat, a: int, param: string, removed: Result<string, GroupError>)
    | Update(g: nat, a: int, req: UpdateRequest, updated: Result<(), GroupError>)
    | Delete(g: nat, a: int, deleted: Result<(), GroupError>)
    | Rotate(g: nat, a: int, invite: string, rotated: Result<(), GroupError>)
    | Ping(sender: int, target: string, powOk: bool, guardAllows: bool, queueHasRoom: bool, enqueued: Option<R.Route>)

  // ---------- what a request does to the caches ----------

  /** `Invalidate` of every burned handle, then `InvalidateGroup`. */
  function Flush(cache: seq<R.Entry>, burned: set<string>, g: nat): seq<R.Entry> {
    var rest := R.Drop(cache, Spellings(burned));
    R.Drop(rest, R.TargetsOf(rest, g))
  }

  /** The targets `Invalidate` drops: with and without the alias mark. */
  function Spellings(burned: set<string>): set<string> {
    (set h | h in burned :: R.Clean(h)) + (set h | h in burned :: "@" + R.Clean(h))
  }

  function GroupHandles(db: Db, g: nat): set<string> {
    set h | h in db.handles && db.handles[h].group == g
  }

  ghost predicate PingStep(s: State, c: Config, sender: int, target: string, powOk: bool, guardAllows: bool,
                           queueHasRoom: bool, enqueued: Option<R.Route>, s': State)
  {
    s'.db == s.db &&
    if !powOk then s' == s && enqueued == None
    else exists v :: R.Resolves(s.cache, c.capacity, s.db, c.minSize, target, s'.cache, v) &&
                     PingRoute(s, c, sender, v, guardAllows && queueHasRoom, enqueued, s')
  }

  ghost predicate PingRoute(s: State, c: Config, sender: int, v: Option<R.Route>, passes: bool,
                            enqueued: Option<R.Route>, s': State) {
    if v.None? then enqueued == None && s'.members == s.members
    else if v.value.kind == Group && v.value.group > 0 then
      exists ok :: R.Answers(s.members, c.capacity, s.db, v.value.group, sender, s'.members, ok) &&
                   enqueued == if ok && passes then v else None
    else s'.members == s.members && enqueued == if passes then v else None
  }

  ghost predicate Step(s: State, c: Config, op: Op, s': State) {
    match op
    case Create(a, name, invite, display, handle, today, r) =>
      CreateTx(s.db, a, name, invite, display, handle, today, c.maxPerAccount, r, s'.db) &&
      s'.cache == s.cache && s'.members == s.members
    case Join(a, invite, display, handle, today, r) =>
      JoinTx(s.db, a, invite, display, handle, today, c.maxPerAccount, c.maxMembers, r, s'.db) &&
      (if r.Success? then Flushed(s, {}, r.value, s') else s'.cache == s.cache && s'.members == s.members)
    case Leave(g, a, r) =>
      LeaveTx(s.db, g, a, r, s'.db) &&
      (if r.Success? then Flushed(s, {r.value}, g, s') else s'.cache == s.cache && s'.members == s.members)
    case Remove(g, a, param, r) =>
      RemoveTx(s.db, g, a, param, r, s'.db) &&
      (if r.Success? then Flushed(s, {r.value}, g, s') else s'.cache == s.cache && s'.members == s.members)
    case Update(g, a, req, r) =>
      UpdateTx(s.db, g, a, req, r, s'.db) && s'.cache == s.cache && s'.members == s.members
    case Delete(g, a, r) =>
      DeleteTx(s.db, g, a, r, s'.db) &&
      (if r.Success? then Flushed(s, GroupHandles(s.db, g), g, s') else s'.cache == s.cache && s'.members == s.members)
    case Rotate(g, a, invite, r) =>
      RotateTx(s.db, g, a, invite, r, s'.db) && s'.cache == s.cache && s'.members == s.members
    case Ping(sender, target, powOk, guardAllows, queueHasRoom, enqueued) =>
      PingStep(s, c, sender, target, powOk, guardAllows, queueHasRoom, enqueued, s')
  }

  ghost predicate Flushed(s: State, burned: set<string>, g: nat, s': State) {
    s'.cache == Flush(s.cache, burned, g) && s'.members == R.ForgetGroup(s.members, g)
  }

  // ---------- the invariant ----------

  /** Every cached answer that lets a ping through is what the tables say now. */
  ghost predicate Sound(db: Db, minSize: nat, cache: seq<R.Entry>) {
    forall e | e in cache && R.VerdictOf(e).Some? :: e == R.Query(db, minSize, e.target)
  }

  /** Every cached membership answer is what the table says now. */
  ghost predicate MembersSound(db: Db, members: MemberCache) {
    forall k | k in members :: k.0 in db.groups && (members[k] <==> IsMember(db, k.0, k.1))
  }

  ghost predicate StateInv(s: State, c: Config) {
    Inv(s.db) && Sound(s.db, c.minSize, s.cache) && MembersSound(s.db, s.members)
  }

  // ---------- changes confined to one group ----------

  /** The tables agree on everything that is not about group `g`. */
  ghost predicate SameOutside(db: Db, db': Db, g: nat) {
    db'.modes == db.modes &&
    (forall f | f in db.groups && f != g :: f in db'.groups) &&
    (forall h | h in db.handles && db.handles[h].group != g :: h in db'.handles && db'.handles[h] == db.handles[h]) &&
    (forall n | n in db.aliases && db.aliases[n].handle in db.handles && db.handles[db.aliases[n].handle].group != g ::
       n in db'.aliases && db'.aliases[n] == db.aliases[n]) &&
    (forall k | k in db.members && k.group != g ::
       k in db'.members && db'.members[k].account == db.members[k].account) &&
    (forall k | k in db'.members && k.group != g :: k in db.members)
  }

  lemma SameCount(db: Db, db': Db, g: nat, f: nat)
    requires SameOutside(db, db', g) && f != g
    ensures Count(db, f) == Count(db', f)
  {
    assert MembersOf(db, f) == MembersOf(db', f);
  }

  lemma SameMember(db: Db, db': Db, g: nat, f: nat, a: int)
    requires SameOutside(db, db', g) && f != g
    ensures IsMember(db, f, a) <==> IsMember(db', f, a)
  {
    if k :| k in db.members && k.group == f && db.members[k].account == a {
      assert k in db'.members && db'.members[k].account == a;
    }
    if k :| k in db'.members && k.group == f && db'.members[k].account == a {
      assert k in db.members && db'.members[k].account == db.members[k].account;
    }
  }

  /** A target that leads outside the group resolves as before. */
  lemma SameAnswer(db: Db, db': Db, g: nat, minSize: nat, target: string)
    requires SameOutside(db, db', g)
    requires R.Query(db, minSize, target).known && R.Query(db, minSize, target).group != g
    ensures R.Query(db', minSize, target) == R.Query(db, minSize, target)
  {
    SameCount(db, db', g, R.Query(db, minSize, target).group);
    hide Count;
  }

  lemma SoundOutside(db: Db, db': Db, g: nat, minSize: nat, cache: seq<R.Entry>, cache': seq<R.Entry>)
    requires Sound(db, minSize, cache) && SameOutside(db, db', g)
    requires forall e | e in cache' :: e in cache && (R.VerdictOf(e).Some? ==> e.group != g)
    ensures Sound(db', minSize, cache')
  {
    hide SameOutside, R.Query;
    forall e | e in cache' && R.VerdictOf(e).Some? ensures e == R.Query(db', minSize, e.target) {
      SameAnswer(db, db', g, minSize, e.target);
    }
  }

  lemma MembersSoundOutside(db: Db, db': Db, g: nat, members: MemberCache, members': MemberCache)
    requires MembersSound(db, members) && SameOutside(db, db', g)
    requires forall k | k in members' :: k in members && members'[k] == members[k] && k.0 != g
    ensures MembersSound(db', members')
  {
    forall k | k in members' ensures k.0 in db'.groups && (members'[k] <==> IsMember(db', k.0, k.1)) {
      SameMember(db, db', g, k.0, k.1);
    }
  }

  lemma FlushExact(cache: seq<R.Entry>, burned: set<string>, g: nat)
    ensures forall e | e in Flush(cache, burned, g) :: e in cache && e.group != g && e.target !in Spellings(burned)
    ensures R.DistinctTargets(cache) ==>
              forall e | e in cache && e.group != g && e.target !in Spellings(burned) :: e in Flush(cache, burned, g)
  {
    var rest := R.Drop(cache, Spellings(burned));
    hide R.Drop, Spellings;
    R.DropExact(cache, Spellings(burned));
    R.DropExact(rest, R.TargetsOf(rest, g));
    if R.DistinctTargets(cache) {
      forall e | e in cache && e.group != g && e.target !in Spellings(burned) ensures e in Flush(cache, burned, g) {
        assert e in rest;
        forall f | f in rest && f.group == g ensures f.target != e.target {
          var i :| 0 <= i < |cache| && cache[i] == e;
          var j :| 0 <= j < |cache| && cache[j] == f;
        }
      }
    }
  }

  // ---------- each request keeps the invariant ----------

  lemma DropHandleOutside(db: Db, k: Key)
    requires RowsInv(db) && k in db.members
    ensures SameOutside(db, DropHandle(db, k.handle), k.group)
  {
    HandleHasOneRow(db, k);
    assert db.handles[k.handle].group == k.group;
  }

  lemma DropGroupOutside(db: Db, g: nat)
    requires RowsInv(db)
    ensures SameOutside(db, DropGroup(db, g), g)
  {
  }

  lemma AddMemberOutside(db: Db, g: nat, h: string, a: int, name: string, role: Role, today: int)
    requires h !in db.handles
    ensures SameOutside(db, AddMember(db, g, h, a, name, role, today), g)
  {
  }

  lemma PromotionOutside(db: Db, o: Key, k: Key)
    requires RowsInv(db) && o in db.members && k in db.members && k.group == o.group
    ensures SameOutside(db, DropHandle(SetOwner(SetRole(db, k, Owner), o.group, db.members[k].account), o.handle),
                        o.group)
  {
    HandleHasOneRow(db, o);
    assert db.handles[o.handle].group == o.group;
  }

  lemma LeaveOutside(db: Db, g: nat, a: int, r: Result<string, GroupError>, db': Db)
    requires Inv(db) && LeaveTx(db, g, a, r, db') && r.Success?
    ensures SameOutside(db, db', g)
  {
    hide SameOutside, IsMember, DropHandle, DropGroup, SetOwner, SetRole, Inv, RowsInv;
    InvParts(db, g);
    var o := Key(g, r.value);
    if db.members[o].role != Owner {
      DropHandleOutside(db, o);
    } else if forall k :: !IsCandidate(db, g, a, k) {
      DeleteLastIsDropGroup(db, g, r.value);
      DropGroupOutside(db, g);
    } else {
      var k :| IsSuccessor(db, g, a, k) &&
               db' == DropHandle(SetOwner(SetRole(db, k, Owner), g, db.members[k].account), r.value);
      PromotionOutside(db, o, k);
    }
  }

  /** Roles, names and owners do not enter any answer. */
  ghost predicate SameAnswers(db: Db, db': Db) {
    db'.modes == db.modes && db'.handles == db.handles && db'.aliases == db.aliases &&
    db'.groups.Keys == db.groups.Keys && db'.members.Keys == db.members.Keys &&
    forall k | k in db.members :: db'.members[k].account == db.members[k].account
  }

  lemma UpdateSameAnswers(db: Db, g: nat, a: int, req: UpdateRequest, r: Result<(), GroupError>, db': Db)
    requires UpdateTx(db, g, a, req, r, db')
    ensures SameAnswers(db, db')
  {
    hide IsMember, MayManage, IsOwnerOf, ParseRole;
    GradedSameAnswers(db, g, req.name, req.role);
    if db' != db && req.transferTo.Some? {
      TransferredSameAnswers(Regraded(Renamed(db, g, req.name), g, req.role), g, a, req.transferTo.value);
    }
  }

  lemma GradedSameAnswers(db: Db, g: nat, name: Option<string>, role: Option<(string, string)>)
    ensures SameAnswers(db, Regraded(Renamed(db, g, name), g, role))
  {
    hide ParseRole;
  }

  lemma TransferredSameAnswers(db: Db, g: nat, a: int, h: string)
    requires Key(g, h) in db.members
    ensures SameAnswers(db, Transferred(db, g, a, h))
  {
  }

  lemma SameAnswersQuery(db: Db, db': Db, minSize: nat, target: string)
    requires SameAnswers(db, db')
    ensures R.Query(db', minSize, target) == R.Query(db, minSize, target)
  {
    var f := R.Query(db, minSize, target).group;
    assert MembersOf(db, f) == MembersOf(db', f);
  }

  lemma SameAnswersMember(db: Db, db': Db, g: nat, a: int)
    requires SameAnswers(db, db')
    ensures IsMember(db, g, a) <==> IsMember(db', g, a)
  {
    if k :| k in db.members && k.group == g && db.members[k].account == a { assert k in db'.members; }
    if k :| k in db'.members && k.group == g && db'.members[k].account == a { assert k in db.members; }
  }

  lemma SameAnswersKeepSound(db: Db, db': Db, minSize: nat, cache: seq<R.Entry>, members: MemberCache)
    requires SameAnswers(db, db') && Sound(db, minSize, cache) && MembersSound(db, members)
    ensures Sound(db', minSize, cache) && MembersSound(db', members)
  {
    hide R.Query, IsMember;
    forall e | e in cache && R.VerdictOf(e).Some? ensures e == R.Query(db', minSize, e.target) {
      SameAnswersQuery(db, db', minSize, e.target);
    }
    forall k | k in members ensures k.0 in db'.groups && (members[k] <==> IsMember(db', k.0, k.1)) {
      SameAnswersMember(db, db', k.0, k.1);
    }
  }

  lemma FlushedKeepsSound(s: State, c: Config, burned: set<string>, g: nat, s': State)
    requires Sound(s.db, c.minSize, s.cache) && MembersSound(s.db, s.members)
    requires SameOutside(s.db, s'.db, g) && Flushed(s, burned, g, s')
    ensures Sound(s'.db, c.minSize, s'.cache) && MembersSound(s'.db, s'.members)
  {
    FlushExact(s.cache, burned, g);
    hide Flush, Sound, MembersSound, SameOutside, R.Query;
    SoundOutside(s.db, s'.db, g, c.minSize, s.cache, s'.cache);
    MembersSoundOutside(s.db, s'.db, g, s.members, s'.members);
  }

  /** A freshly numbered group has no cached answers, so nothing needs flushing. */
  lemma CreateKeepsSound(s: State, c: Config, g: nat, row: GroupRow, h: string, a: int, name: string, today: int,
                         s': State)
    requires StateInv(s, c) && g > 0 && g !in s.db.groups && h !in s.db.handles
    requires s'.db == AddMember(s.db.(groups := s.db.groups[g := row]), g, h, a, name, Owner, today)
    requires s'.cache == s.cache && s'.members == s.members
    ensures Sound(s'.db, c.minSize, s'.cache) && MembersSound(s'.db, s'.members)
  {
    hide SameOutside, R.Query, AddMember, Inv;
    CreateOutside(s.db, g, row, h, a, name, today);
    NoHandleInNewGroup(s.db, g, c.minSize);
    SoundOutside(s.db, s'.db, g, c.minSize, s.cache, s'.cache);
    MembersSoundOutside(s.db, s'.db, g, s.members, s'.members);
  }

  lemma NoHandleInNewGroup(db: Db, g: nat, minSize: nat)
    requires Inv(db) && g > 0 && g !in db.groups
    ensures forall t :: R.Query(db, minSize, t).group != g
  {
    hide OneOwner, DistinctMembers, Count;
  }

  lemma CreateOutside(db: Db, g: nat, row: GroupRow, h: string, a: int, name: string, today: int)
    requires g !in db.groups && h !in db.handles
    ensures SameOutside(db, AddMember(db.(groups := db.groups[g := row]), g, h, a, name, Owner, today), g)
  {
  }

  lemma EndpointKeepsInv(s: State, c: Config, op: Op, s': State)
    requires StateInv(s, c) && Step(s, c, op, s') && !op.Ping?
    ensures StateInv(s', c)
  {
    hide Inv, Sound, MembersSound, SameOutside, Flush, CreateTx, JoinTx, LeaveTx, RemoveTx, UpdateTx, DeleteTx,
        RotateTx;
    match op
    case Create(a, name, invite, display, handle, today, r) =>
      CreateTxKeepsInv(s.db, a, name, invite, display, handle, today, c.maxPerAccount, r, s'.db);
      CreateStepSound(s, c, op, s');
    case Join(a, invite, display, handle, today, r) =>
      JoinTxKeepsInv(s.db, a, invite, display, handle, today, c.maxPerAccount, c.maxMembers, r, s'.db);
      if r.Success? {
        AddMemberOutside(s.db, r.value, handle, a, display, Member, today);
        FlushedKeepsSound(s, c, {}, r.value, s');
      } else {
        JoinFailed(s.db, a, invite, display, handle, today, c, r, s'.db);
      }
    case Leave(g, a, r) =>
      LeaveTxKeepsInv(s.db, g, a, r, s'.db);
      if r.Success? {
        LeaveOutside(s.db, g, a, r, s'.db);
        FlushedKeepsSound(s, c, {r.value}, g, s');
      } else {
        LeaveFailed(s.db, g, a, r, s'.db);
      }
    case Remove(g, a, param, r) =>
      RemoveTxKeepsInv(s.db, g, a, param, r, s'.db);
      RemoveStepSound(s, c, op, s');
    case Update(g, a, req, r) =>
      UpdateTxKeepsInv(s.db, g, a, req, r, s'.db);
      UpdateSameAnswers(s.db, g, a, req, r, s'.db);
      SameAnswersKeepSound(s.db, s'.db, c.minSize, s.cache, s.members);
    case Delete(g, a, r) =>
      DeleteTxKeepsInv(s.db, g, a, r, s'.db);
      DeleteStepSound(s, c, op, s');
    case Rotate(g, a, invite, r) =>
      RotateTxKeepsInv(s.db, g, a, invite, r, s'.db);
      RotateSameAnswers(s.db, g, a, invite, r, s'.db);
      SameAnswersKeepSound(s.db, s'.db, c.minSize, s.cache, s.members);
  }

  lemma CreateStepSound(s: State, c: Config, op: Op, s': State)
    requires op.Create? && StateInv(s, c) && Step(s, c, op, s')
    ensures Sound(s'.db, c.minSize, s'.cache) && MembersSound(s'.db, s'.members)
  {
    hide Inv, Sound, MembersSound, AddMember;
    if op.created.Success? {
      CreateKeepsSound(s, c, op.created.value, GroupRow(op.name, op.invite, op.a), op.handle, op.a, op.display,
                       op.today, s');
    }
  }

  lemma JoinFailed(db: Db, a: int, invite: string, display: string, handle: string, today: int, c: Config,
                   r: Result<nat, GroupError>, db': Db)
    requires JoinTx(db, a, invite, display, handle, today, c.maxPerAccount, c.maxMembers, r, db') && r.Failure?
    ensures db' == db
  {
    hide AddMember, NameTaken, IsMember, GroupsOf;
  }

  lemma LeaveFailed(db: Db, g: nat, a: int, r: Result<string, GroupError>, db': Db)
    requires LeaveTx(db, g, a, r, db') && r.Failure?
    ensures db' == db
  {
    hide DropHandle, DropGroup, SetOwner, SetRole, IsMember;
  }

  lemma RemoveStepSound(s: State, c: Config, op: Op, s': State)
    requires op.Remove? && StateInv(s, c) && Step(s, c, op, s')
    ensures Sound(s'.db, c.minSize, s'.cache) && MembersSound(s'.db, s'.members)
  {
    hide Inv, Sound, MembersSound, SameOutside, Flush, DropHandle, IsMember, MayManage;
    if op.removed.Success? {
      InvParts(s.db, op.g);
      DropHandleOutside(s.db, Key(op.g, op.removed.value));
      FlushedKeepsSound(s, c, {op.removed.value}, op.g, s');
    }
  }

  lemma DeleteStepSound(s: State, c: Config, op: Op, s': State)
    requires op.Delete? && StateInv(s, c) && Step(s, c, op, s')
    ensures Sound(s'.db, c.minSize, s'.cache) && MembersSound(s'.db, s'.members)
  {
    hide Inv, Sound, MembersSound, SameOutside, Flush, DropGroup, GroupHandles;
    if op.deleted.Success? {
      InvParts(s.db, op.g);
      DropGroupOutside(s.db, op.g);
      FlushedKeepsSound(s, c, GroupHandles(s.db, op.g), op.g, s');
    }
  }

  lemma RotateSameAnswers(db: Db, g: nat, a: int, invite: string, r: Result<(), GroupError>, db': Db)
    requires RotateTx(db, g, a, invite, r, db')
    ensures SameAnswers(db, db')
  {
    hide IsMember, MayManage;
  }

  // ---------- a ping ----------

  /** An answer is what the tables say, and the cache stays sound. */
  lemma ResolvesSound(s: State, c: Config, target: string, cache': seq<R.Entry>, v: Option<R.Route>)
    requires Sound(s.db, c.minSize, s.cache) && R.Resolves(s.cache, c.capacity, s.db, c.minSize, target, cache', v)
    ensures Sound(s.db, c.minSize, cache')
    ensures v.Some? ==> v == R.VerdictOf(R.Query(s.db, c.minSize, target))
  {
    hide R.Query, R.VerdictOf, R.Drop;
    R.DropExact(s.cache, {target});
  }

  lemma AnswersSound(s: State, c: Config, g: nat, a: int, members': MemberCache, ok: bool)
    requires MembersSound(s.db, s.members) && R.Answers(s.members, c.capacity, s.db, g, a, members', ok)
    requires g > 0 && g in s.db.groups
    ensures MembersSound(s.db, members') && (ok <==> IsMember(s.db, g, a))
  {
    hide IsMember;
  }

  /** A verdict for a group handle means the group exists and is large enough. */
  lemma VerdictMeansActive(db: Db, minSize: nat, target: string)
    requires Inv(db)
    ensures var v := R.VerdictOf(R.Query(db, minSize, target));
            v.Some? && v.value.group > 0 ==>
              v.value.kind == Group && v.value.group in db.groups &&
              Count(db, v.value.group) >= minSize
  {
    hide OneOwner, DistinctMembers, Count;
  }

  /** Main result: a ping is enqueued only if, at that moment, the tables lead from its target to that handle, which
      takes pings; and if the handle has a group, only if the group has at least the minimum size and the sender is
      one of its members. */
  lemma PingIsSafe(s: State, c: Config, op: Op, s': State)
    requires StateInv(s, c) && op.Ping? && Step(s, c, op, s')
    ensures StateInv(s', c)
    ensures op.enqueued.Some? ==> op.enqueued == R.VerdictOf(R.Query(s.db, c.minSize, op.target))
    ensures op.enqueued.Some? ==>
              op.powOk && op.guardAllows && op.queueHasRoom && op.target != "" &&
              R.RoutesTo(s.db, c.minSize, op.target, op.enqueued.value)
    ensures op.enqueued.Some? && op.enqueued.value.group > 0 ==>
              Count(s.db, op.enqueued.value.group) >= c.minSize && IsMember(s.db, op.enqueued.value.group, op.sender)
  {
    hide Inv, Sound, MembersSound, R.Query, R.VerdictOf, R.Resolves, R.Answers, R.RoutesTo, Count, IsMember;
    if op.powOk {
      var v :| R.Resolves(s.cache, c.capacity, s.db, c.minSize, op.target, s'.cache, v) &&
               PingRoute(s, c, op.sender, v, op.guardAllows && op.queueHasRoom, op.enqueued, s');
      EmptyResolvesToNothing(s, c, op.target, s'.cache, v);
      if v.Some? { R.ResolvesIff(s.db, c.minSize, op.target, v.value); }
      ResolvesSound(s, c, op.target, s'.cache, v);
      VerdictMeansActive(s.db, c.minSize, op.target);
      if v.Some? && v.value.kind == Group && v.value.group > 0 {
        var ok :| R.Answers(s.members, c.capacity, s.db, v.value.group, op.sender, s'.members, ok) &&
                  op.enqueued == if ok && op.guardAllows && op.queueHasRoom then v else None;
        AnswersSound(s, c, v.value.group, op.sender, s'.members, ok);
      }
    }
  }

  lemma EmptyResolvesToNothing(s: State, c: Config, target: string, cache': seq<R.Entry>, v: Option<R.Route>)
    requires R.Resolves(s.cache, c.capacity, s.db, c.minSize, target, cache', v)
    ensures target == "" ==> v.None?
  {
  }

  // ---------- over whole runs ----------

  /** `states[i + 1]` follows `states[i]` by request `ops[i]`, from empty caches. */
  ghost predicate IsRun(states: seq<State>, ops: seq<Op>, c: Config) {
    |states| == |ops| + 1 && Inv(states[0].db) && states[0].cache == [] && states[0].members == map[] &&
    forall i | 0 <= i < |ops| :: Step(states[i], c, ops[i], states[i + 1])
  }

  lemma {:induction false} RunKeepsInv(states: seq<State>, ops: seq<Op>, c: Config, i: nat)
    requires IsRun(states, ops, c) && i <= |ops|
    ensures StateInv(states[i], c)
  {
    hide Step;
    if i > 0 {
      RunKeepsInv(states, ops, c, i - 1);
      assert Step(states[i - 1], c, ops[i - 1], states[i - 1 + 1]);
      hide StateInv;
      if ops[i - 1].Ping? {
        PingIsSafe(states[i - 1], c, ops[i - 1], states[i]);
      } else {
        EndpointKeepsInv(states[i - 1], c, ops[i - 1], states[i]);
      }
    } else {
      assert StateInv(states[0], c);
    }
  }

  /** Main result over every run of group endpoints and pings. */
  lemma RunIsSafe(states: seq<State>, ops: seq<Op>, c: Config, i: nat)
    requires IsRun(states, ops, c) && i < |ops| && ops[i].Ping? && ops[i].enqueued.Some?
    ensures ops[i].target != "" && R.RoutesTo(states[i].db, c.minSize, ops[i].target, ops[i].enqueued.value)
    ensures var route := ops[i].enqueued.value;
            route.group > 0 ==>
              Count(states[i].db, route.group) >= c.minSize &&
              IsMember(states[i].db, route.group, ops[i].sender)
  {
    hide Step, StateInv, Count, IsMember, R.RoutesTo;
    RunKeepsInv(states, ops, c, i);
    assert Step(states[i], c, ops[i], states[i + 1]);
    PingIsSafe(states[i], c, ops[i], states[i + 1]);
  }

  // ---------- full coherence, including answers that let nothing through ----------

  ghost predicate Coherent(db: Db, minSize: nat, cache: seq<R.Entry>) {
    forall e | e in cache :: e == R.Query(db, minSize, e.target)
  }

  /** While the cache is coherent, the resolver answers exactly what the uncached query would. */
  lemma CoherentAnswers(s: State, c: Config, target: string, cache': seq<R.Entry>, v: Option<R.Route>)
    requires Coherent(s.db, c.minSize, s.cache) && R.Resolves(s.cache, c.capacity, s.db, c.minSize, target, cache', v)
    ensures Coherent(s.db, c.minSize, cache')
    ensures v == if target == "" then None else R.VerdictOf(R.Query(s.db, c.minSize, target))
  {
    hide R.Query, R.VerdictOf, R.Drop;
    R.DropExact(s.cache, {target});
  }

  /** Then, and for any target that is not cached, a ping is enqueued for a handle exactly when the tables lead
      there, the sender belongs to its group if it has one, and proof of work, guard and queue let it through. */
  lemma PingIff(s: State, c: Config, op: Op, s': State, route: R.Route)
    requires StateInv(s, c) && op.Ping? && Step(s, c, op, s') && op.target != ""
    requires Coherent(s.db, c.minSize, s.cache) || !R.Cached(s.cache, op.target)
    ensures op.enqueued == Some(route) <==>
              && op.powOk && op.guardAllows && op.queueHasRoom
              && R.RoutesTo(s.db, c.minSize, op.target, route)
              && (route.group > 0 ==> IsMember(s.db, route.group, op.sender))
  {
    hide Inv, Sound, MembersSound, Coherent, R.Query, R.VerdictOf, R.Resolves, R.Answers, R.RoutesTo, R.Cached, Count,
      IsMember;
    if op.powOk {
      var v :| R.Resolves(s.cache, c.capacity, s.db, c.minSize, op.target, s'.cache, v) &&
               PingRoute(s, c, op.sender, v, op.guardAllows && op.queueHasRoom, op.enqueued, s');
      AnswersAsTables(s, c, op.target, s'.cache, v);
      R.ResolvesIff(s.db, c.minSize, op.target, route);
      VerdictMeansActive(s.db, c.minSize, op.target);
      if v.Some? && v.value.kind == Group && v.value.group > 0 {
        var ok :| R.Answers(s.members, c.capacity, s.db, v.value.group, op.sender, s'.members, ok) &&
                  op.enqueued == if ok && op.guardAllows && op.queueHasRoom then v else None;
        AnswersSound(s, c, v.value.group, op.sender, s'.members, ok);
      }
    }
  }

  lemma AnswersAsTables(s: State, c: Config, target: string, cache': seq<R.Entry>, v: Option<R.Route>)
    requires R.Resolves(s.cache, c.capacity, s.db, c.minSize, target, cache', v) && target != ""
    requires Coherent(s.db, c.minSize, s.cache) || !R.Cached(s.cache, target)
    ensures v == R.VerdictOf(R.Query(s.db, c.minSize, target))
  {
    hide R.Query, R.VerdictOf, R.Drop;
  }

  /** Any change of the tables keeps the cache coherent if every target it affects is invalidated. */
  lemma InvalidationRestoresCoherence(db: Db, db': Db, minSize: nat, cache: seq<R.Entry>, affected: set<string>)
    requires Coherent(db, minSize, cache)
    requires forall t :: R.Query(db', minSize, t) != R.Query(db, minSize, t) ==> t in affected
    ensures Coherent(db', minSize, R.Drop(cache, affected))
  {
    hide R.Query, R.Drop;
    R.DropExact(cache, affected);
  }

  ghost predicate AliasesResolve(db: Db) {
    forall n | n in db.aliases :: db.aliases[n].handle in db.handles
  }

  /** A new handle changes only its own answer, outside its group. */
  lemma NewHandleAnswers(db: Db, g: nat, h: string, a: int, name: string, role: Role, today: int, minSize: nat,
                         target: string)
    requires h !in db.handles && AliasesResolve(db) && (h == "" || h[0] != '@')
    ensures var q, q' := R.Query(db, minSize, target),
        R.Query(AddMember(db, g, h, a, name, role, today), minSize, target);
            (target != h && (q.known ==> q.group != g) ==> q' == q) && (target == h ==> q' != q && !q.known)
  {
    var db' := AddMember(db, g, h, a, name, role, today);
    if R.Query(db, minSize, target).known && R.Query(db, minSize, target).group != g {
      AddMemberOutside(db, g, h, a, name, role, today);
      SameAnswer(db, db', g, minSize, target);
    }
    hide Count;
  }

  lemma NewHandleCoherence(db: Db, g: nat, h: string, a: int, name: string, role: Role, today: int, minSize: nat,
                           cache: seq<R.Entry>, cache': seq<R.Entry>)
    requires Coherent(db, minSize, cache) && AliasesResolve(db) && g > 0
    requires h !in db.handles && (h == "" || h[0] != '@')
    requires forall e | e in cache' :: e in cache && e.group != g
    requires forall e | e in cache && e.group != g :: e in cache'
    ensures Coherent(AddMember(db, g, h, a, name, role, today), minSize, cache') <==> !R.Cached(cache, h)
  {
    var db' := AddMember(db, g, h, a, name, role, today);
    hide R.Query, AddMember;
    forall e | e in cache'
      ensures e.target != h ==> e == R.Query(db', minSize, e.target)
      ensures e.target == h ==> e != R.Query(db', minSize, h)
    {
      NewHandleAnswers(db, g, h, a, name, role, today, minSize, e.target);
    }
    if i :| 0 <= i < |cache| && cache[i].target == h {
      NewHandleAnswers(db, g, h, a, name, role, today, minSize, h);
      UnknownHasNoGroup(db, minSize, h);
      assert cache[i] in cache';
    }
    if !R.Cached(cache, h) {
      forall e | e in cache' ensures e.target != h { InCache(cache, e); }
    }
  }

  lemma InCache(cache: seq<R.Entry>, e: R.Entry)
    requires e in cache
    ensures R.Cached(cache, e.target)
  {
    var i :| 0 <= i < |cache| && cache[i] == e;
  }

  /** A join keeps the cache coherent exactly when the minted handle was not already cached as unknown:
      the request invalidates the group but not the new handle. */
  lemma JoinCoherence(s: State, c: Config, op: Op, s': State)
    requires op.Join? && Step(s, c, op, s') && op.joined.Success? && StateInv(s, c)
    requires Coherent(s.db, c.minSize, s.cache) && R.DistinctTargets(s.cache) && AliasesResolve(s.db)
    requires op.handle == "" || op.handle[0] != '@'
    ensures Coherent(s'.db, c.minSize, s'.cache) <==> !R.Cached(s.cache, op.handle)
  {
    hide R.Query, AddMember, JoinTx, Flush, Inv, Sound, MembersSound, Coherent, R.Cached, R.DistinctTargets,
        AliasesResolve;
    var g, h := op.joined.value, op.handle;
    JoinTxKeepsInv(s.db, op.a, op.invite, op.display, h, op.today, c.maxPerAccount, c.maxMembers, op.joined, s'.db);
    GroupIdsArePositive(s.db);
    FlushExact(s.cache, {}, g);
    NewHandleCoherence(s.db, g, h, op.a, op.display, Member, op.today, c.minSize, s.cache, s'.cache);
  }

  /** So does a creation, which mints a handle too and invalidates nothing. */
  lemma CreateCoherence(s: State, c: Config, op: Op, s': State)
    requires op.Create? && Step(s, c, op, s') && op.created.Success? && StateInv(s, c)
    requires Coherent(s.db, c.minSize, s.cache) && AliasesResolve(s.db)
    requires op.handle == "" || op.handle[0] != '@'
    ensures Coherent(s'.db, c.minSize, s'.cache) <==> !R.Cached(s.cache, op.handle)
  {
    hide R.Query, AddMember, Inv, Sound, MembersSound, Coherent, R.Cached, AliasesResolve;
    var g, h := op.created.value, op.handle;
    var db1 := s.db.(groups := s.db.groups[g := GroupRow(op.name, op.invite, op.a)]);
    NoHandleInNewGroup(s.db, g, c.minSize);
    NewGroupSameAnswers(s.db, g, GroupRow(op.name, op.invite, op.a), c.minSize, s.cache);
    NoneOfGroup(s.db, c.minSize, s.cache, g);
    NewHandleCoherence(db1, g, h, op.a, op.display, Owner, op.today, c.minSize, s.cache, s.cache);
  }

  /** A group without handles enters no answer. */
  lemma NewGroupSameAnswers(db: Db, g: nat, row: GroupRow, minSize: nat, cache: seq<R.Entry>)
    ensures var db1 := db.(groups := db.groups[g := row]);
            && (AliasesResolve(db) ==> AliasesResolve(db1))
            && (Coherent(db, minSize, cache) <==> Coherent(db1, minSize, cache))
  {
    var db1 := db.(groups := db.groups[g := row]);
    assert forall f :: MembersOf(db1, f) == MembersOf(db, f);
    forall t ensures R.Query(db1, minSize, t) == R.Query(db, minSize, t) {}
  }

  lemma NoneOfGroup(db: Db, minSize: nat, cache: seq<R.Entry>, g: nat)
    requires Coherent(db, minSize, cache) && forall t :: R.Query(db, minSize, t).group != g
    ensures forall e | e in cache :: e.group != g
  {
    hide R.Query;
  }

  // ---------- runs in which a minted handle was cached as unknown ----------

  const NO_ROWS := Db(map[], map[], map[], map[], map[], 0)

  const SMALL := Config(10, 5, 3, 100)

  function Unknown(target: string): R.Entry {
    R.Entry(target, 0, "", Personal, 0, All, false, false)
  }

  function OwnedGroup(handle: string): Db {
    AddMember(NO_ROWS.(groups := map[1 := GroupRow("n", "i", 1)]), 1, handle, 1, "d", Owner, 0)
  }

  /** A ping to a handle nobody has puts it into the cache as unknown. */
  lemma PingUnknown(s: State, h: string)
    requires s.cache == [] && h != "" && h[0] != '@' && h !in s.db.handles
    ensures Step(s, SMALL, Ping(7, h, true, true, true, None), s.(cache := [Unknown(h)]))
  {
    assert R.Resolves(s.cache, SMALL.capacity, s.db, SMALL.minSize, h, [Unknown(h)], None);
  }

  lemma FirstCreate(s: State, h: string)
    requires s.db == NO_ROWS
    ensures Step(s, SMALL, Create(1, "n", "i", "d", h, 0, Success(1)), s.(db := OwnedGroup(h)))
  {
    assert GroupsOf(NO_ROWS, 1) == {};
  }

  lemma EmptyIsRight()
    ensures Inv(NO_ROWS) && AliasesResolve(NO_ROWS)
  {
  }

  /** The cache is coherent until the last request of the run, and not after it. */
  ghost predicate LastLosesCoherence(states: seq<State>, ops: seq<Op>, c: Config) {
    && IsRun(states, ops, c) && ops != []
    && (forall i | 0 <= i < |ops| :: Coherent(states[i].db, c.minSize, states[i].cache))
    && !Coherent(states[|ops|].db, c.minSize, states[|ops|].cache)
  }

  lemma UnknownIsCoherent(db: Db, h: string)
    requires h != "" && h[0] != '@' && h !in db.handles
    ensures Coherent(db, SMALL.minSize, []) && Coherent(db, SMALL.minSize, [Unknown(h)]) && R.Cached([Unknown(h)], h)
    ensures R.DistinctTargets([Unknown(h)])
  {
    assert [Unknown(h)][0].target == h;
  }

  predicate IsStart(s: State) {
    s.db == NO_ROWS && s.cache == [] && s.members == map[]
  }

  lemma TwoSteps(s0: State, s1: State, s2: State, op0: Op, op1: Op)
    requires IsStart(s0) && Step(s0, SMALL, op0, s1) && Step(s1, SMALL, op1, s2)
    ensures IsRun([s0, s1, s2], [op0, op1], SMALL) && StateInv(s1, SMALL)
  {
    hide Step, Inv, StateInv;
    EmptyIsRight();
    var states, ops := [s0, s1, s2], [op0, op1];
    assert forall i | 0 <= i < 2 :: Step(states[i], SMALL, ops[i], states[i + 1]);
    RunKeepsInv(states, ops, SMALL, 1);
  }

  lemma ThirdStep(s0: State, s1: State, s2: State, s3: State, op0: Op, op1: Op, op2: Op)
    requires IsRun([s0, s1, s2], [op0, op1], SMALL) && Step(s2, SMALL, op2, s3)
    ensures IsRun([s0, s1, s2, s3], [op0, op1, op2], SMALL) && StateInv(s2, SMALL)
  {
    hide Step, Inv, StateInv;
    RunKeepsInv([s0, s1, s2], [op0, op1], SMALL, 2);
    var old2, ops2, states, ops := [s0, s1, s2], [op0, op1], [s0, s1, s2, s3], [op0, op1, op2];
    forall i | 0 <= i < 3 ensures Step(states[i], SMALL, ops[i], states[i + 1]) {
      if i < 2 { assert Step(old2[i], SMALL, ops2[i], old2[i + 1]); }
    }
  }

  function CreateStates(): seq<State> {
    var s0 := State(NO_ROWS, [], map[]);
    [s0, s0.(cache := [Unknown("h")]), State(OwnedGroup("h"), [Unknown("h")], map[])]
  }

  function CreateOps(): seq<Op> {
    [Ping(7, "h", true, true, true, None), Create(1, "n", "i", "d", "h", 0, Success(1))]
  }

  /** A run in which creating a group leaves a wrong answer in the cache. */
  lemma CreateCanLoseCoherence()
    ensures LastLosesCoherence(CreateStates(), CreateOps(), SMALL)
  {
    var s0, s1, s2 := CreateStates()[0], CreateStates()[1], CreateStates()[2];
    var op0, op1 := CreateOps()[0], CreateOps()[1];
    hide Step, Inv, Coherent, OwnedGroup, AliasesResolve, R.Cached, R.DistinctTargets, StateInv, Unknown, IsRun;
    PingUnknown(s0, "h");
    FirstCreate(s1, "h");
    EmptyIsRight();
    UnknownIsCoherent(NO_ROWS, "h");
    TwoSteps(s0, s1, s2, op0, op1);
    CreateCoherence(s1, SMALL, op1, s2);
  }

  /** A third request on a cache that has stayed coherent, which its answer for the new handle does not survive. */
  lemma JoinLoses(s0: State, s1: State, s2: State, s3: State, op0: Op, op1: Op, op2: Op)
    requires IsStart(s0) && Step(s0, SMALL, op0, s1) && Step(s1, SMALL, op1, s2) && Step(s2, SMALL, op2, s3)
    requires op2.Join? && op2.joined.Success? && R.Cached(s2.cache, op2.handle) && R.DistinctTargets(s2.cache)
    requires AliasesResolve(s2.db) && (op2.handle == "" || op2.handle[0] != '@')
    requires Coherent(s0.db, SMALL.minSize, s0.cache) && Coherent(s1.db, SMALL.minSize, s1.cache)
    requires Coherent(s2.db, SMALL.minSize, s2.cache)
    ensures LastLosesCoherence([s0, s1, s2, s3], [op0, op1, op2], SMALL)
  {
    hide Step, Inv, Coherent, AliasesResolve, R.Cached, R.DistinctTargets, StateInv, IsRun;
    TwoSteps(s0, s1, s2, op0, op1);
    ThirdStep(s0, s1, s2, s3, op0, op1, op2);
    JoinCoherence(s2, SMALL, op2, s3);
  }

  function Joined(i: nat): State {
    var db, cache := if i == 0 then NO_ROWS else OwnedGroup("o"), if i < 2 then [] else [Unknown("h")];
    State(if i < 3 then db else AddMember(db, 1, "h", 2, "e", Member, 0), cache, map[])
  }

  function JoinOps(): seq<Op> {
    [Create(1, "n", "i", "d", "o", 0, Success(1)), Ping(7, "h", true, true, true, None),
     Join(2, "i", "e", "h", 0, Success(1))]
  }

  /** And one in which joining does. */
  lemma JoinCanLoseCoherence()
    ensures LastLosesCoherence([Joined(0), Joined(1), Joined(2), Joined(3)], JoinOps(), SMALL)
  {
    JoinedSteps();
    JoinedCaches();
    hide Step, Coherent, AliasesResolve, R.Cached, R.DistinctTargets, Joined, LastLosesCoherence, IsStart;
    JoinLoses(Joined(0), Joined(1), Joined(2), Joined(3), JoinOps()[0], JoinOps()[1], JoinOps()[2]);
  }

  lemma JoinedSteps()
    ensures IsStart(Joined(0))
    ensures Step(Joined(0), SMALL, Create(1, "n", "i", "d", "o", 0, Success(1)), Joined(1))
    ensures Step(Joined(1), SMALL, Ping(7, "h", true, true, true, None), Joined(2))
    ensures Step(Joined(2), SMALL, Join(2, "i", "e", "h", 0, Success(1)), Joined(3))
  {
    hide Step, OwnedGroup, AddMember, Unknown;
    OwnedHasNoAlias("o");
    FirstCreate(Joined(0), "o");
    PingUnknown(Joined(1), "h");
    SecondJoins(Joined(2));
  }

  lemma JoinedCaches()
    ensures Coherent(Joined(0).db, SMALL.minSize, Joined(0).cache)
    ensures Coherent(Joined(1).db, SMALL.minSize, Joined(1).cache)
    ensures Coherent(Joined(2).db, SMALL.minSize, Joined(2).cache)
    ensures R.Cached(Joined(2).cache, "h") && R.DistinctTargets(Joined(2).cache) && AliasesResolve(Joined(2).db)
  {
    hide Coherent, OwnedGroup, AddMember, Unknown, R.Cached, R.DistinctTargets, AliasesResolve;
    OwnedHasNoAlias("o");
    UnknownIsCoherent(NO_ROWS, "h");
    UnknownIsCoherent(OwnedGroup("o"), "h");
  }

  lemma OwnedHasNoAlias(h: string)
    ensures AliasesResolve(OwnedGroup(h)) && OwnedGroup(h).handles.Keys == {h}
  {
  }

  /** The tables take the second member. */
  lemma SecondRow(db: Db)
    requires db == OwnedGroup("o")
    ensures JoinTx(db, 2, "i", "e", "h", 0, 3, 100, Success(1), AddMember(db, 1, "h", 2, "e", Member, 0))
  {
    OneRow(db);
    assert GroupsOf(db, 2) == {};
    assert 1 in db.groups && db.groups[1].invite == "i";
    hide Lower, AddMember;
    assert JoinGroupTx(db, 1, 2, "e", "h", 0, 3, 100, Success(1), AddMember(db, 1, "h", 2, "e", Member, 0));
  }

  lemma OneRow(db: Db)
    requires db == OwnedGroup("o")
    ensures db.members.Keys == {Key(1, "o")} && MembersOf(db, 1) == {Key(1, "o")} && db.groups.Keys == {1}
    ensures db.members[Key(1, "o")].account == 1 && "h" !in db.handles && db.groups[1].invite == "i"
    ensures !NameTaken(db, 1, "e") && !IsMember(db, 1, 2)
  {
    assert Lower("d")[0] == 'd' && Lower("e")[0] == 'e';
  }

  lemma SecondJoins(s: State)
    requires s.db == OwnedGroup("o") && s.cache == [Unknown("h")] && s.members == map[]
    ensures Step(s, SMALL, Join(2, "i", "e", "h", 0, Success(1)), s.(db := AddMember(s.db, 1, "h", 2, "e", Member, 0)))
  {
    hide JoinTx, AddMember, Flush, R.ForgetGroup, OwnedGroup, Unknown;
    SecondRow(s.db);
    NothingFlushed();
  }

  lemma NothingFlushed()
    ensures Flush([Unknown("h")], {}, 1) == [Unknown("h")] && R.ForgetGroup(map[], 1) == map[]
  {
    var es := [Unknown("h")];
    assert Spellings({}) == {};
    assert es[..0] == [];
    assert R.TargetsOf(es, 1) == {};
  }

  lemma GroupIdsArePositive(db: Db)
    requires Inv(db)
    ensures forall g | g in db.groups :: g > 0
  {
    hide OneOwner, RowsInv;
  }

  lemma UnknownHasNoGroup(db: Db, minSize: nat, target: string)
    ensures !R.Query(db, minSize, target).known ==> R.Query(db, minSize, target).group == 0
  {
    hide Count;
  }

  /** Handles and aliases only disappear. */
  ghost predicate Shrinks(db: Db, db': Db) {
    && db'.handles.Keys <= db.handles.Keys
    && forall n | n in db'.aliases :: n in db.aliases && db'.aliases[n] == db.aliases[n]
  }

  lemma ShrinkKeepsCoherent(db: Db, db': Db, g: nat, minSize: nat, cache: seq<R.Entry>, cache': seq<R.Entry>)
    requires Coherent(db, minSize, cache) && SameOutside(db, db', g) && Shrinks(db, db')
    requires forall e | e in cache' :: e in cache && e.group != g
    ensures Coherent(db', minSize, cache')
  {
    forall e | e in cache' ensures e == R.Query(db', minSize, e.target) {
      hide Count;
      if e.known { SameAnswer(db, db', g, minSize, e.target); }
    }
  }

  lemma LeaveShrinks(db: Db, g: nat, a: int, r: Result<string, GroupError>, db': Db)
    requires LeaveTx(db, g, a, r, db')
    ensures Shrinks(db, db')
  {
    hide IsMember, Precedes, DropHandle, DropGroup, SetOwner, SetRole, Shrinks;
    if db' == db {
      StaysPut(db);
    } else if db.members[Key(g, r.value)].role != Owner {
      DropHandleShrinks(db, r.value);
    } else if forall k :: !IsCandidate(db, g, a, k) {
      DropHandleShrinks(db, r.value);
      DropGroupShrinks(DropHandle(db, r.value), g);
      ShrinksTwice(db, DropHandle(db, r.value), db');
    } else {
      var k :| IsSuccessor(db, g, a, k) &&
               db' == DropHandle(SetOwner(SetRole(db, k, Owner), g, db.members[k].account), r.value);
      RolesShrink(db, k, g, db.members[k].account);
      DropHandleShrinks(SetOwner(SetRole(db, k, Owner), g, db.members[k].account), r.value);
      ShrinksTwice(db, SetOwner(SetRole(db, k, Owner), g, db.members[k].account), db');
    }
  }

  lemma StaysPut(db: Db)
    ensures Shrinks(db, db)
  {
  }

  lemma DropHandleShrinks(db: Db, h: string)
    ensures Shrinks(db, DropHandle(db, h))
  {
  }

  lemma DropGroupShrinks(db: Db, g: nat)
    ensures Shrinks(db, DropGroup(db, g))
  {
  }

  lemma RolesShrink(db: Db, k: Key, g: nat, a: int)
    requires k in db.members
    ensures Shrinks(db, SetOwner(SetRole(db, k, Owner), g, a))
  {
  }

  lemma ShrinksTwice(a: Db, b: Db, c: Db)
    requires Shrinks(a, b) && Shrinks(b, c)
    ensures Shrinks(a, c)
  {
  }

  /** The endpoints that mint no handle keep the cache coherent. */
  lemma OthersKeepCoherent(s: State, c: Config, op: Op, s': State)
    requires StateInv(s, c) && Step(s, c, op, s') && Coherent(s.db, c.minSize, s.cache)
    requires op.Leave? || op.Remove? || op.Delete? || op.Update? || op.Rotate?
    ensures Coherent(s'.db, c.minSize, s'.cache)
  {
    hide Inv, Sound, MembersSound, SameOutside, Flush, R.Query, LeaveTx, UpdateTx, RotateTx, DropHandle, DropGroup,
        IsMember, MayManage, GroupHandles;
    match op
    case Leave(g, a, r) =>
      LeaveShrinks(s.db, g, a, r, s'.db);
      if r.Success? {
        LeaveOutside(s.db, g, a, r, s'.db);
        FlushExact(s.cache, {r.value}, g);
        ShrinkKeepsCoherent(s.db, s'.db, g, c.minSize, s.cache, s'.cache);
      } else {
        LeaveFailed(s.db, g, a, r, s'.db);
      }
    case Remove(g, a, param, r) =>
      if r.Success? {
        InvParts(s.db, g);
        DropHandleOutside(s.db, Key(g, r.value));
        DropHandleShrinks(s.db, r.value);
        FlushExact(s.cache, {r.value}, g);
        ShrinkKeepsCoherent(s.db, s'.db, g, c.minSize, s.cache, s'.cache);
      }
    case Delete(g, a, r) =>
      if r.Success? {
        InvParts(s.db, g);
        DropGroupOutside(s.db, g);
        DropGroupShrinks(s.db, g);
        FlushExact(s.cache, GroupHandles(s.db, g), g);
        ShrinkKeepsCoherent(s.db, s'.db, g, c.minSize, s.cache, s'.cache);
      }
    case Update(g, a, req, r) =>
      UpdateSameAnswers(s.db, g, a, req, r, s'.db);
      SameAnswersKeepCoherent(s.db, s'.db, c.minSize, s.cache);
    case Rotate(g, a, invite, r) =>
      RotateSameAnswers(s.db, g, a, invite, r, s'.db);
      SameAnswersKeepCoherent(s.db, s'.db, c.minSize, s.cache);
  }

  lemma SameAnswersKeepCoherent(db: Db, db': Db, minSize: nat, cache: seq<R.Entry>)
    requires SameAnswers(db, db') && Coherent(db, minSize, cache)
    ensures Coherent(db', minSize, cache)
  {
    hide R.Query;
    forall e | e in cache ensures e == R.Query(db', minSize, e.target) { SameAnswersQuery(db, db', minSize, e.target); }
  }
}
