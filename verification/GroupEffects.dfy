/** What the group transactions do to each row, whom they obey, and the limits they keep, told of the tables themselves
    (server/internal/http/groups.go). */
module GroupEffects {
  import opened Wrappers
  import opened Groups
  import opened GroupPing

  /** The account has a row in the group with one of these roles. */
  ghost predicate HasRole(db: Db, g: nat, a: int, roles: set<Role>) {
    exists k :: k in db.members && k.group == g && db.members[k].account == a && db.members[k].role in roles
  }

  // ---------- updating ----------

  /** The role of a row after an update that succeeds. */
  function RoleAfter(k: Key, m: MemberRow, g: nat, a: int, req: UpdateRequest): Role {
    if req.transferTo == Some(k.handle) && k.group == g then Owner
    else if req.transferTo.Some? && k.group == g && m.account == a then Admin
    else if req.role.Some? && k == Key(g, req.role.value.0) && m.role != Owner
    then if req.role.value.1 == "admin" then Admin else Member
    else m.role
  }

  /** Nothing but the roles, the group's name and its owner changes, and those as asked for. */
  ghost predicate UpdatedRows(db: Db, g: nat, a: int, req: UpdateRequest, db': Db)
    requires g in db.groups
  {
    && db'.handles == db.handles && db'.aliases == db.aliases && db'.modes == db.modes && db'.nextRowid == db.nextRowid
    && db'.members.Keys == db.members.Keys
    && (forall k | k in db.members :: db'.members[k] == db.members[k].(role := RoleAfter(k, db.members[k], g, a, req)))
    && (req.transferTo.Some? ==> Key(g, req.transferTo.value) in db.members)
    && db'.groups == db.groups[g := GroupRow(
         if req.name.Some? then req.name.value else db.groups[g].name, db.groups[g].invite,
         if req.transferTo.Some? then db.members[Key(g, req.transferTo.value)].account else db.groups[g].owner)]
  }

  /** An owner or admin may rename; only the owner may regrade and hand over. */
  ghost predicate MayUpdate(db: Db, g: nat, a: int, req: UpdateRequest) {
    && HasRole(db, g, a, {Owner, Admin})
    && (req.name.Some? ==> 0 < |req.name.value| <= 64)
    && (req.role.Some? ==> HasRole(db, g, a, {Owner}) && req.role.value.1 in ["admin", "member"])
    && (req.transferTo.Some? ==> HasRole(db, g, a, {Owner}) && Key(g, req.transferTo.value) in db.members)
  }

  lemma RolesOf(db: Db, g: nat, a: int)
    ensures MayManage(db, g, a) <==> HasRole(db, g, a, {Owner, Admin})
    ensures IsOwnerOf(db, g, a) <==> HasRole(db, g, a, {Owner})
    ensures MayManage(db, g, a) ==> IsMember(db, g, a)
  {
  }

  /** Main result: an update succeeds exactly if the caller may make it, and then does to every row what was asked. */
  lemma UpdateIff(db: Db, g: nat, a: int, req: UpdateRequest, r: Result<(), GroupError>, db': Db)
    requires Inv(db) && UpdateTx(db, g, a, req, r, db')
    ensures r.Success? <==> MayUpdate(db, g, a, req)
    ensures r.Success? ==> g in db.groups && UpdatedRows(db, g, a, req, db')
    ensures r.Failure? ==> db' == db
  {
    hide Inv, Regraded, Renamed, Transferred, MayManage, IsOwnerOf, HasRole, IsMember, UpdatedRows;
    RolesOf(db, g, a);
    if r.Success? {
      ManagedGroupExists(db, g, a);
      GradedRows(db, g, a, req);
      if req.transferTo.Some? { TransferredRows(db, g, a, req); }
    }
  }

  lemma ManagedGroupExists(db: Db, g: nat, a: int)
    requires Inv(db) && MayManage(db, g, a)
    ensures g in db.groups
  {
    hide DistinctMembers, OneOwner;
  }

  lemma GradedRows(db: Db, g: nat, a: int, req: UpdateRequest)
    requires g in db.groups && (req.role.Some? ==> ParseRole(req.role.value.1).Some?)
    ensures UpdatedRows(db, g, a, req.(transferTo := None), Regraded(Renamed(db, g, req.name), g, req.role))
  {
  }

  lemma TransferredRows(db: Db, g: nat, a: int, req: UpdateRequest)
    requires g in db.groups && (req.role.Some? ==> ParseRole(req.role.value.1).Some?)
    requires req.transferTo.Some? && Key(g, req.transferTo.value) in db.members
    requires Key(g, req.transferTo.value) in Regraded(Renamed(db, g, req.name), g, req.role).members
    ensures UpdatedRows(db, g, a, req, Transferred(Regraded(Renamed(db, g, req.name), g, req.role), g, a,
                                                   req.transferTo.value))
  {
    hide Regraded, Renamed, Transferred;
    GradedRows(db, g, a, req);
    var d, h := Regraded(Renamed(db, g, req.name), g, req.role), req.transferTo.value;
    TransferredTables(d, g, a, h);
    forall k | k in db.members
      ensures Transferred(d, g, a, h).members[k] == db.members[k].(role := RoleAfter(k, db.members[k], g, a, req))
    {
      TransferredRow(d, g, a, h, k);
    }
  }

  lemma TransferredTables(d: Db, g: nat, a: int, h: string)
    requires g in d.groups && Key(g, h) in d.members
    ensures var t := Transferred(d, g, a, h);
            && t.handles == d.handles && t.aliases == d.aliases && t.modes == d.modes && t.nextRowid == d.nextRowid
            && t.members.Keys == d.members.Keys
            && t.groups == d.groups[g := d.groups[g].(owner := d.members[Key(g, h)].account)]
  {
  }

  lemma TransferredRow(d: Db, g: nat, a: int, h: string, k: Key)
    requires Key(g, h) in d.members && k in d.members
    ensures var t := Transferred(d, g, a, h);
            k in t.members &&
            t.members[k] == d.members[k].(role := if k == Key(g, h) then Owner
                                                  else if k.group == g && d.members[k].account == a then Admin
                                                  else d.members[k].role)
  {
  }

  // ---------- leaving and removing ----------

  /** The longest-standing admin of the others, or, if there is none, member; of two of one day the one inserted
      first. */
  ghost predicate TakesOver(db: Db, g: nat, a: int, k: Key) {
    && k in db.members && k.group == g && db.members[k].account != a
    && forall l | l in db.members && l.group == g && db.members[l].account != a ::
         var m, n := db.members[k], db.members[l];
         if m.role == Admin then n.role == Admin ==> (m.joinedDay, m.rowid) == (n.joinedDay, n.rowid) || Earlier(m, n)
         else n.role != Admin && ((m.joinedDay, m.rowid) == (n.joinedDay, n.rowid) || Earlier(m, n))
  }

  predicate Earlier(m: MemberRow, n: MemberRow) {
    m.joinedDay < n.joinedDay || (m.joinedDay == n.joinedDay && m.rowid < n.rowid)
  }

  lemma SuccessorIff(db: Db, g: nat, a: int, k: Key)
    ensures IsSuccessor(db, g, a, k) <==> TakesOver(db, g, a, k)
  {
  }

  /** Without the rows, the handle and the aliases of `h`; every other row stays. */
  ghost predicate WithoutHandle(db: Db, h: string, db': Db) {
    && db'.handles == db.handles - {h}
    && (forall k :: k in db'.members <==> k in db.members && k.handle != h)
    && (forall n :: n in db'.aliases <==> n in db.aliases && db.aliases[n].handle != h)
    && (forall n | n in db'.aliases :: db'.aliases[n] == db.aliases[n])
    && db'.modes == db.modes && db'.nextRowid == db.nextRowid
  }

  /** Main result: whoever is in a group leaves it. An owner hands over to the member who takes over, and to nobody
      else; with no one left the group goes. */
  lemma LeaveEffect(db: Db, g: nat, a: int, r: Result<string, GroupError>, db': Db)
    requires Inv(db) && LeaveTx(db, g, a, r, db')
    ensures r.Success? <==> exists k :: k in db.members && k.group == g && db.members[k].account == a
    ensures r.Failure? ==> db' == db
    ensures r.Success? ==> Key(g, r.value) in db.members && db.members[Key(g, r.value)].account == a
    ensures r.Success? && db.members[Key(g, r.value)].role != Owner ==>
              WithoutHandle(db, r.value, db') && db'.groups == db.groups &&
              forall k | k in db'.members :: db'.members[k] == db.members[k]
    ensures r.Success? && db.members[Key(g, r.value)].role == Owner &&
            (exists k :: k in db.members && k.group == g && db.members[k].account != a) ==>
              exists k :: TakesOver(db, g, a, k) && HandedOver(db, g, r.value, k, db')
    ensures r.Success? && (forall k | k in db.members && k.group == g :: db.members[k].account == a) ==>
              g !in db'.groups && forall f | f != g :: f in db'.groups <==> f in db.groups
  {
    hide Inv, Precedes, TakesOver, DropHandle, DropGroup, SetOwner, SetRole, WithoutHandle, HandedOver;
    if r.Success? {
      var h := r.value;
      Dropped(db, h);
      if db.members[Key(g, h)].role == Owner {
        OthersAreCandidates(db, g, a);
        if k :| IsCandidate(db, g, a, k) {
          var s :| IsSuccessor(db, g, a, s) &&
                   db' == DropHandle(SetOwner(SetRole(db, s, Owner), g, db.members[s].account), h);
          SuccessorIff(db, g, a, s);
          Promoted(db, g, a, h, s);
        } else {
          GroupGone(DropHandle(db, h), g);
        }
      } else {
        OwnerIsOther(db, g, a, h);
      }
    }
  }

  /** The group, its owner's row gone, now belongs to row `k`; no other row and no other group changed. */
  ghost predicate HandedOver(db: Db, g: nat, h: string, k: Key, db': Db) {
    && WithoutHandle(db, h, db') && k in db.members && k.handle != h && g in db.groups
    && (forall l | l in db'.members ::
          db'.members[l] == if l == k then db.members[l].(role := Owner) else db.members[l])
    && db'.groups == db.groups[g := db.groups[g].(owner := db.members[k].account)]
  }

  lemma OthersAreCandidates(db: Db, g: nat, a: int)
    ensures (exists k :: k in db.members && k.group == g && db.members[k].account != a) <==>
              exists k :: IsCandidate(db, g, a, k)
  {
    if k :| k in db.members && k.group == g && db.members[k].account != a { assert IsCandidate(db, g, a, k); }
  }

  lemma Dropped(db: Db, h: string)
    ensures WithoutHandle(db, h, DropHandle(db, h)) && DropHandle(db, h).groups == db.groups
    ensures forall k | k in DropHandle(db, h).members :: DropHandle(db, h).members[k] == db.members[k]
  {
  }

  lemma GroupGone(db: Db, g: nat)
    ensures DropGroup(db, g).groups == db.groups - {g}
  {
  }

  lemma Promoted(db: Db, g: nat, a: int, h: string, k: Key)
    requires Inv(db) && IsSuccessor(db, g, a, k) && Key(g, h) in db.members && db.members[Key(g, h)].account == a
    ensures HandedOver(db, g, h, k, DropHandle(SetOwner(SetRole(db, k, Owner), g, db.members[k].account), h))
  {
    hide DistinctMembers, OneOwner, Precedes;
    assert k.group == g && k.handle != h && g in db.groups;
  }

  /** One who is not the owner leaves the owner behind. */
  lemma OwnerIsOther(db: Db, g: nat, a: int, h: string)
    requires Inv(db) && Key(g, h) in db.members && db.members[Key(g, h)].account == a
    requires db.members[Key(g, h)].role != Owner
    ensures exists k :: k in db.members && k.group == g && db.members[k].account != a
  {
    assert g in db.groups && OneOwner(db, g);
    var k :| OwnerIs(db, g, k);
    assert k != Key(g, h);
  }

  /** A removal takes out one row of the group that goes by that handle or name and is not the owner's; only an owner or
      admin can make it. */
  lemma RemoveEffect(db: Db, g: nat, a: int, param: string, r: Result<string, GroupError>, db': Db)
    requires RemoveTx(db, g, a, param, r, db')
    ensures r.Failure? ==> db' == db
    ensures r.Success? ==>
              && HasRole(db, g, a, {Owner, Admin}) && Key(g, r.value) in db.members
              && (r.value == param || db.members[Key(g, r.value)].displayName == param)
              && db.members[Key(g, r.value)].role != Owner
              && WithoutHandle(db, r.value, db') && db'.groups == db.groups
              && forall k | k in db'.members :: db'.members[k] == db.members[k]
  {
    hide DropHandle, WithoutHandle, MayManage, HasRole;
    RolesOf(db, g, a);
    if r.Success? { Dropped(db, r.value); }
  }

  // ---------- creating and joining ----------

  /** One row and one handle more, and the next row number. */
  ghost predicate WithMember(db: Db, g: nat, h: string, m: MemberRow, db': Db) {
    && db'.handles == db.handles[h := HandleRow(m.account, Group, g, false)]
    && db'.members == db.members[Key(g, h) := m]
    && db'.aliases == db.aliases && db'.modes == db.modes && db'.nextRowid == db.nextRowid + 1
  }

  /** Whoever belongs to fewer groups than allowed creates one and owns it. */
  lemma CreateEffect(db: Db, a: int, name: string, invite: string, display: string, h: string, today: int,
                     maxPerAccount: nat, r: Result<nat, GroupError>, db': Db)
    requires CreateTx(db, a, name, invite, display, h, today, maxPerAccount, r, db')
    ensures r.Success? <==> |set k | k in db.members && db.members[k].account == a| < maxPerAccount && h !in db.handles
    ensures r.Failure? ==> db' == db
    ensures r.Success? ==>
              && r.value > 0 && r.value !in db.groups && db'.groups == db.groups[r.value := GroupRow(name, invite, a)]
              && WithMember(db, r.value, h, MemberRow(a, display, Owner, today, db.nextRowid), db')
  {
    assert GroupsOf(db, a) == set k | k in db.members && db.members[k].account == a;
  }

  /** The bearer of an invitation may come in: not a member yet, in fewer groups than allowed, to a group with room and
      without that name in any spelling. */
  ghost predicate MayJoin(db: Db, g: nat, a: int, invite: string, display: string, h: string, maxPerAccount: nat,
                          maxMembers: nat) {
    && g in db.groups && db.groups[g].invite == invite && h !in db.handles
    && (forall k | k in db.members && k.group == g ::
          db.members[k].account != a && Lower(db.members[k].displayName) != Lower(display))
    && |set k | k in db.members && db.members[k].account == a| < maxPerAccount
    && |set k | k in db.members && k.group == g| < maxMembers
  }

  ghost predicate Invited(db: Db, invite: string) {
    exists g :: g in db.groups && db.groups[g].invite == invite
  }

  lemma JoinEffect(db: Db, a: int, invite: string, display: string, h: string, today: int, maxPerAccount: nat,
                   maxMembers: nat, r: Result<nat, GroupError>, db': Db)
    requires JoinTx(db, a, invite, display, h, today, maxPerAccount, maxMembers, r, db')
    ensures r.Failure? ==> db' == db
    ensures r.Success? ==>
              && MayJoin(db, r.value, a, invite, display, h, maxPerAccount, maxMembers) && db'.groups == db.groups
              && WithMember(db, r.value, h, MemberRow(a, display, Member, today, db.nextRowid), db')
    ensures Invited(db, invite) &&
            (forall g | g in db.groups && db.groups[g].invite == invite ::
               MayJoin(db, g, a, invite, display, h, maxPerAccount, maxMembers))
            ==> r.Success?
  {
    hide Lower;
    assert GroupsOf(db, a) == set k | k in db.members && db.members[k].account == a;
    forall g ensures MembersOf(db, g) == set k | k in db.members && k.group == g {}
  }

  /** Only the owner deletes; every row, handle and alias of the group goes and every other stays. */
  lemma DeleteEffect(db: Db, g: nat, a: int, r: Result<(), GroupError>, db': Db)
    requires Inv(db) && DeleteTx(db, g, a, r, db')
    ensures r.Success? <==> HasRole(db, g, a, {Owner})
    ensures r.Failure? ==> db' == db
    ensures r.Success? ==> db'.groups == db.groups - {g} && db'.modes == db.modes
    ensures r.Success? ==>
              && (forall h :: h in db'.handles <==> h in db.handles && db.handles[h].group != g)
              && (forall h | h in db'.handles :: db'.handles[h] == db.handles[h])
              && (forall k :: k in db'.members <==> k in db.members && k.group != g)
              && (forall k | k in db'.members :: db'.members[k] == db.members[k])
  {
    hide DistinctMembers;
    OwnersAlone(db, g, a);
  }

  /** An owner or admin changes the invitation, and nothing else changes. */
  lemma RotateEffect(db: Db, g: nat, a: int, invite: string, r: Result<(), GroupError>, db': Db)
    requires Inv(db) && RotateTx(db, g, a, invite, r, db')
    ensures r.Success? <==> HasRole(db, g, a, {Owner, Admin})
    ensures r.Failure? ==> db' == db
    ensures r.Success? ==>
              g in db.groups && db' == db.(groups := db.groups[g := db.groups[g].(invite := invite)])
  {
    hide Inv, MayManage, HasRole, IsMember;
    RolesOf(db, g, a);
    if r.Success? { ManagedGroupExists(db, g, a); }
  }

  /** The recorded owner is the one account with an owner's row. */
  lemma OwnersAlone(db: Db, g: nat, a: int)
    requires Inv(db)
    ensures HasRole(db, g, a, {Owner}) <==> g in db.groups && db.groups[g].owner == a
  {
    hide DistinctMembers;
    if g in db.groups {
      assert OneOwner(db, g);
      var o :| OwnerIs(db, g, o);
      assert IsOwnerRow(db, g, o);
      if k :| k in db.members && k.group == g && db.members[k].account == a && db.members[k].role in {Owner} {
        assert IsOwnerRow(db, g, k);
      }
    }
  }

  // ---------- limits over runs ----------

  /** No group has more members and no account more groups than allowed. */
  ghost predicate WithinLimits(db: Db, maxPerAccount: nat, maxMembers: nat) {
    (forall g :: Count(db, g) <= maxMembers) && (forall a :: |GroupsOf(db, a)| <= maxPerAccount)
  }

  predicate NoMoreRows(db: Db, db': Db) {
    forall k | k in db'.members :: k in db.members && db'.members[k].account == db.members[k].account
  }

  lemma FewerRows(db: Db, db': Db, c: Config)
    requires WithinLimits(db, c.maxPerAccount, c.maxMembers) && NoMoreRows(db, db')
    ensures WithinLimits(db', c.maxPerAccount, c.maxMembers)
  {
    forall g ensures Count(db', g) <= c.maxMembers {
      assert Count(db, g) <= c.maxMembers;
      Smaller(MembersOf(db', g), MembersOf(db, g));
    }
    forall a ensures |GroupsOf(db', a)| <= c.maxPerAccount {
      assert |GroupsOf(db, a)| <= c.maxPerAccount;
      Smaller(GroupsOf(db', a), GroupsOf(db, a));
    }
  }

  lemma {:induction false} Smaller(a: set<Key>, b: set<Key>)
    requires a <= b
    ensures |a| <= |b|
  {
    if k :| k in a {
      Smaller(a - {k}, b - {k});
    }
  }

  lemma OneRowMore(db: Db, g: nat, h: string, m: MemberRow, db': Db, c: Config)
    requires WithinLimits(db, c.maxPerAccount, c.maxMembers) && db'.members == db.members[Key(g, h) := m]
    requires Key(g, h) !in db.members && Count(db, g) < c.maxMembers && |GroupsOf(db, m.account)| < c.maxPerAccount
    ensures WithinLimits(db', c.maxPerAccount, c.maxMembers)
  {
    hide MembersOf, GroupsOf;
    forall f ensures Count(db', f) <= c.maxMembers {
      assert Count(db, f) <= c.maxMembers;
      RowAdded(db, g, h, m, db', f, m.account);
    }
    forall a ensures |GroupsOf(db', a)| <= c.maxPerAccount {
      assert |GroupsOf(db, a)| <= c.maxPerAccount;
      RowAdded(db, g, h, m, db', g, a);
    }
  }

  lemma RowAdded(db: Db, g: nat, h: string, m: MemberRow, db': Db, f: nat, a: int)
    requires db'.members == db.members[Key(g, h) := m] && Key(g, h) !in db.members
    ensures MembersOf(db', f) == MembersOf(db, f) + (if f == g then {Key(g, h)} else {})
    ensures GroupsOf(db', a) == GroupsOf(db, a) + (if a == m.account then {Key(g, h)} else {})
  {
  }

  lemma NewGroupIsEmpty(db: Db, g: nat)
    requires Inv(db) && g !in db.groups
    ensures Count(db, g) == 0 && forall h :: Key(g, h) !in db.members
  {
    hide DistinctMembers, OneOwner;
    assert MembersOf(db, g) == {};
  }

  lemma NewHandleHasNoRow(db: Db, g: nat, h: string)
    requires Inv(db) && h !in db.handles
    ensures Key(g, h) !in db.members
  {
    hide DistinctMembers, OneOwner;
  }

  lemma LeaveRows(db: Db, g: nat, a: int, r: Result<string, GroupError>, db': Db)
    requires LeaveTx(db, g, a, r, db')
    ensures NoMoreRows(db, db')
  {
    hide IsMember, Precedes, DropHandle, DropGroup, SetRole, SetOwner, NoMoreRows;
    SameRows(db);
    if r.Success? {
      var h := r.value;
      DropsAddNoRow(db, g, h);
      DropsAddNoRow(DropHandle(db, h), g, h);
      RowsShrinkOn(db, DropHandle(db, h), DropGroup(DropHandle(db, h), g));
      if k :| IsSuccessor(db, g, a, k) &&
              db' == DropHandle(SetOwner(SetRole(db, k, Owner), g, db.members[k].account), h) {
        var named := SetOwner(SetRole(db, k, Owner), g, db.members[k].account);
        PromotionAddsNoRow(db, g, k);
        DropsAddNoRow(named, g, h);
        RowsShrinkOn(db, named, db');
      }
    }
  }

  lemma SameRows(db: Db)
    ensures NoMoreRows(db, db)
  {
  }

  lemma RowsShrinkOn(a: Db, b: Db, c: Db)
    requires NoMoreRows(a, b) && NoMoreRows(b, c)
    ensures NoMoreRows(a, c)
  {
  }

  lemma DropsAddNoRow(db: Db, g: nat, h: string)
    ensures NoMoreRows(db, DropHandle(db, h)) && NoMoreRows(db, DropGroup(db, g))
  {
  }

  lemma PromotionAddsNoRow(db: Db, g: nat, k: Key)
    requires k in db.members
    ensures NoMoreRows(db, SetOwner(SetRole(db, k, Owner), g, db.members[k].account))
  {
  }

  lemma RemoveRows(db: Db, g: nat, a: int, param: string, r: Result<string, GroupError>, db': Db)
    requires RemoveTx(db, g, a, param, r, db')
    ensures NoMoreRows(db, db')
  {
    hide IsMember, MayManage;
  }

  lemma UpdateRows(db: Db, g: nat, a: int, req: UpdateRequest, r: Result<(), GroupError>, db': Db)
    requires Inv(db) && UpdateTx(db, g, a, req, r, db')
    ensures NoMoreRows(db, db')
  {
    hide Inv, UpdateTx, MayUpdate;
    UpdateIff(db, g, a, req, r, db');
  }

  lemma DeleteRows(db: Db, g: nat, a: int, r: Result<(), GroupError>, db': Db)
    requires DeleteTx(db, g, a, r, db')
    ensures NoMoreRows(db, db')
  {
  }

  lemma RotateRows(db: Db, g: nat, a: int, invite: string, r: Result<(), GroupError>, db': Db)
    requires RotateTx(db, g, a, invite, r, db')
    ensures NoMoreRows(db, db')
  {
    hide IsMember, MayManage;
  }

  lemma CreateKeepsLimits(db: Db, c: Config, op: Op, db': Db)
    requires op.Create? && Inv(db) && c.maxMembers > 0 && WithinLimits(db, c.maxPerAccount, c.maxMembers)
    requires CreateTx(db, op.a, op.name, op.invite, op.display, op.handle, op.today, c.maxPerAccount, op.created, db')
    ensures WithinLimits(db', c.maxPerAccount, c.maxMembers)
  {
    hide Inv, WithinLimits, Count, GroupsOf;
    if op.created.Success? {
      NewGroupIsEmpty(db, op.created.value);
      var m := MemberRow(op.a, op.display, Owner, op.today, db.nextRowid);
      OneRowMore(db, op.created.value, op.handle, m, db', c);
    }
  }

  lemma JoinKeepsLimits(db: Db, c: Config, op: Op, db': Db)
    requires op.Join? && Inv(db) && WithinLimits(db, c.maxPerAccount, c.maxMembers)
    requires JoinTx(db, op.a, op.invite, op.display, op.handle, op.today, c.maxPerAccount, c.maxMembers, op.joined, db')
    ensures WithinLimits(db', c.maxPerAccount, c.maxMembers)
  {
    hide Inv, WithinLimits, Count, GroupsOf, IsMember, NameTaken;
    if op.joined.Success? {
      NewHandleHasNoRow(db, op.joined.value, op.handle);
      var m := MemberRow(op.a, op.display, Member, op.today, db.nextRowid);
      OneRowMore(db, op.joined.value, op.handle, m, db', c);
    }
  }

  lemma StepKeepsLimits(s: State, c: Config, op: Op, s': State)
    requires StateInv(s, c) && Step(s, c, op, s') && c.maxMembers > 0
    requires WithinLimits(s.db, c.maxPerAccount, c.maxMembers)
    ensures WithinLimits(s'.db, c.maxPerAccount, c.maxMembers)
  {
    hide Inv, Sound, MembersSound, Flush, WithinLimits, CreateTx, JoinTx, LeaveTx, RemoveTx, UpdateTx, DeleteTx,
        RotateTx,
      PingRoute, Count, GroupsOf, NoMoreRows;
    match op
    case Create(a, name, invite, display, h, today, r) =>
      CreateKeepsLimits(s.db, c, op, s'.db);
    case Join(a, invite, display, h, today, r) =>
      JoinKeepsLimits(s.db, c, op, s'.db);
    case Leave(g, a, r) =>
      LeaveRows(s.db, g, a, r, s'.db);
      FewerRows(s.db, s'.db, c);
    case Remove(g, a, param, r) =>
      RemoveRows(s.db, g, a, param, r, s'.db);
      FewerRows(s.db, s'.db, c);
    case Update(g, a, req, r) =>
      UpdateRows(s.db, g, a, req, r, s'.db);
      FewerRows(s.db, s'.db, c);
    case Delete(g, a, r) =>
      DeleteRows(s.db, g, a, r, s'.db);
      FewerRows(s.db, s'.db, c);
    case Rotate(g, a, invite, r) =>
      RotateRows(s.db, g, a, invite, r, s'.db);
      FewerRows(s.db, s'.db, c);
    case Ping(_, _, _, _, _, _) =>
      assert s'.db == s.db;
  }

  /** Main result: over every run that starts within the limits, no group gets more members and no account more groups
      than allowed. */
  lemma {:induction false} RunKeepsLimits(states: seq<State>, ops: seq<Op>, c: Config, i: nat)
    requires IsRun(states, ops, c) && i <= |ops| && c.maxMembers > 0
    requires WithinLimits(states[0].db, c.maxPerAccount, c.maxMembers)
    ensures WithinLimits(states[i].db, c.maxPerAccount, c.maxMembers)
  {
    hide Step, StateInv, WithinLimits;
    if i > 0 {
      RunKeepsLimits(states, ops, c, i - 1);
      RunKeepsInv(states, ops, c, i - 1);
      assert Step(states[i - 1], c, ops[i - 1], states[i - 1 + 1]);
      StepKeepsLimits(states[i - 1], c, ops[i - 1], states[i]);
    }
  }
}
