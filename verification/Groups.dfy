/** Groups, their members and the handles minted for them (server/internal/http/groups.go and the schema
    in server/internal/store/migrations/0001_init.sql): tables as maps, foreign keys as explicit
    cascades, each transaction as one step. */
module Groups {
  import opened Wrappers

  datatype Kind = Personal | Social | Stream | Group

  datatype Mode = All | GroupsOnly | Paused

  datatype Role = Owner | Admin | Member

  datatype GroupRow = GroupRow(name: string, invite: string, owner: int)

  /** `group` is 0 where the column is NULL; group identifiers are positive. */
  datatype HandleRow = HandleRow(account: int, kind: Kind, group: nat, paused: bool)

  /** The primary key of the membership table. */
  datatype Key = Key(group: nat, handle: string)

  datatype MemberRow = MemberRow(account: int, displayName: string, role: Role, joinedDay: int, rowid: nat)

  datatype AliasRow = AliasRow(account: int, handle: string)

  datatype Db = Db(
    groups: map<nat, GroupRow>,
    handles: map<string, HandleRow>,
    members: map<Key, MemberRow>,
    aliases: map<string, AliasRow>,
    modes: map<int, Mode>,
    nextRowid: nat)

  datatype GroupError =
    NotFound | Forbidden | GroupFull | MaxGroupsReached | AlreadyMember | DisplayNameTaken | Internal |
    InvalidName | InvalidRole

  // ---------- queries ----------

  function MembersOf(db: Db, g: nat): set<Key> {
    set k | k in db.members && k.group == g
  }

  function Count(db: Db, g: nat): nat {
    |MembersOf(db, g)|
  }

  ghost predicate IsMember(db: Db, g: nat, a: int) {
    exists k :: k in db.members && k.group == g && db.members[k].account == a
  }

  function GroupsOf(db: Db, a: int): set<Key> {
    set k | k in db.members && db.members[k].account == a
  }

  /** SQL `LOWER`, which folds ASCII letters only. */
  function Lower(s: string): string {
    seq(|s|, i requires 0 <= i < |s| => if 'A' <= s[i] <= 'Z' then s[i] - 'A' + 'a' else s[i])
  }

  // ---------- statements with their cascades ----------

  /** `DELETE FROM handles WHERE handle = h`. */
  function DropHandle(db: Db, h: string): Db {
    db.(handles := db.handles - {h},
        members := map k | k in db.members && k.handle != h :: db.members[k],
        aliases := map n | n in db.aliases && db.aliases[n].handle != h :: db.aliases[n])
  }

  /** `DELETE FROM groups WHERE id = g`. */
  function DropGroup(db: Db, g: nat): Db {
    var handles := map h | h in db.handles && db.handles[h].group != g :: db.handles[h];
    db.(groups := db.groups - {g},
        handles := handles,
        members := map k | k in db.members && k.group != g && k.handle in handles :: db.members[k],
        aliases := map n | n in db.aliases && db.aliases[n].handle in handles :: db.aliases[n])
  }

  function SetRole(db: Db, k: Key, role: Role): Db {
    if k in db.members then db.(members := db.members[k := db.members[k].(role := role)]) else db
  }

  function SetOwner(db: Db, g: nat, a: int): Db {
    if g in db.groups then db.(groups := db.groups[g := db.groups[g].(owner := a)]) else db
  }

  function AddMember(db: Db, g: nat, h: string, a: int, name: string, role: Role, today: int): Db {
    db.(handles := db.handles[h := HandleRow(a, Group, g, false)],
        members := db.members[Key(g, h) := MemberRow(a, name, role, today, db.nextRowid)],
        nextRowid := db.nextRowid + 1)
  }

  // ---------- the invariant ----------

  /** Member rows and group handles correspond one to one. */
  ghost predicate RowsMatchHandles(db: Db) {
    (forall k | k in db.members ::
       k.group > 0 && k.group in db.groups && k.handle in db.handles &&
       db.handles[k.handle].account == db.members[k].account &&
       db.handles[k.handle].kind == Group && db.handles[k.handle].group == k.group) &&
    (forall h | h in db.handles && db.handles[h].group > 0 :: Key(db.handles[h].group, h) in db.members)
  }

  ghost predicate DistinctMembers(db: Db) {
    forall k, l | k in db.members && l in db.members && k.group == l.group && k != l ::
      db.members[k].account != db.members[l].account &&
      Lower(db.members[k].displayName) != Lower(db.members[l].displayName)
  }

  ghost predicate IsOwnerRow(db: Db, g: nat, k: Key) {
    k in db.members && k.group == g && db.members[k].role == Owner
  }

  /** `k` is the only owner row of the group, and it belongs to the recorded owner. */
  ghost predicate OwnerIs(db: Db, g: nat, k: Key) {
    g in db.groups && IsOwnerRow(db, g, k) && db.members[k].account == db.groups[g].owner &&
    forall l :: IsOwnerRow(db, g, l) ==> l == k
  }

  /** Exactly one owner row. So no group is empty. */
  ghost predicate OneOwner(db: Db, g: nat) {
    exists k :: OwnerIs(db, g, k)
  }

  ghost predicate RowsInv(db: Db) {
    RowsMatchHandles(db) && DistinctMembers(db)
  }

  /** Every group but `g` has one owner. */
  ghost predicate OwnersBut(db: Db, g: nat) {
    forall f | f in db.groups && f != g :: f > 0 && OneOwner(db, f)
  }

  ghost predicate Inv(db: Db) {
    RowsInv(db) && forall g | g in db.groups :: g > 0 && OneOwner(db, g)
  }

  lemma NoGroupIsEmpty(db: Db, g: nat)
    requires Inv(db) && g in db.groups
    ensures Count(db, g) > 0
  {
    assert OneOwner(db, g);
    var k :| OwnerIs(db, g, k);
    assert k in MembersOf(db, g);
  }

  // ---------- transactions ----------

  ghost predicate CreateTx(db: Db, a: int, name: string, invite: string, display: string, handle: string, today: int,
                           maxPerAccount: nat, r: Result<nat, GroupError>, db': Db)
  {
    if |GroupsOf(db, a)| >= maxPerAccount then r == Failure(MaxGroupsReached) && db' == db
    else if handle in db.handles then r == Failure(Internal) && db' == db
    else r.Success? && r.value > 0 && r.value !in db.groups &&
         db' == AddMember(db.(groups := db.groups[r.value := GroupRow(name, invite, a)]), r.value, handle, a, display,
                          Owner, today)
  }

  ghost predicate NameTaken(db: Db, g: nat, display: string) {
    exists k :: k in db.members && k.group == g && Lower(db.members[k].displayName) == Lower(display)
  }

  ghost predicate JoinTx(db: Db, a: int, invite: string, display: string, handle: string, today: int,
                         maxPerAccount: nat, maxMembers: nat, r: Result<nat, GroupError>, db': Db)
  {
    if forall g | g in db.groups :: db.groups[g].invite != invite then r == Failure(NotFound) && db' == db
    else exists g ::
      g in db.groups && db.groups[g].invite == invite &&
      JoinGroupTx(db, g, a, display, handle, today, maxPerAccount, maxMembers, r, db')
  }

  ghost predicate JoinGroupTx(db: Db, g: nat, a: int, display: string, handle: string, today: int,
                              maxPerAccount: nat, maxMembers: nat, r: Result<nat, GroupError>, db': Db)
  {
    if IsMember(db, g, a) then r == Failure(AlreadyMember) && db' == db
    else if |GroupsOf(db, a)| >= maxPerAccount then r == Failure(MaxGroupsReached) && db' == db
    else if Count(db, g) >= maxMembers then r == Failure(GroupFull) && db' == db
    else if NameTaken(db, g, display) then r == Failure(DisplayNameTaken) && db' == db
    else if handle in db.handles then r == Failure(Internal) && db' == db
    else r == Success(g) && db' == AddMember(db, g, handle, a, display, Member, today)
  }

  /** Admins come before members; then the earlier to join; then the earlier row. */
  predicate Precedes(m: MemberRow, n: MemberRow) {
    if (m.role == Admin) != (n.role == Admin) then m.role == Admin
    else if m.joinedDay != n.joinedDay then m.joinedDay < n.joinedDay
    else m.rowid < n.rowid
  }

  ghost predicate IsCandidate(db: Db, g: nat, a: int, k: Key) {
    k in db.members && k.group == g && db.members[k].account != a
  }

  /** The longest-tenured admin, or member where there is no admin. */
  ghost predicate IsSuccessor(db: Db, g: nat, a: int, k: Key) {
    IsCandidate(db, g, a, k) && forall l :: IsCandidate(db, g, a, l) ==> !Precedes(db.members[l], db.members[k])
  }

  ghost predicate LeaveTx(db: Db, g: nat, a: int, r: Result<string, GroupError>, db': Db) {
    if !IsMember(db, g, a) then r == Failure(NotFound) && db' == db
    else r.Success? && Key(g, r.value) in db.members && db.members[Key(g, r.value)].account == a &&
         if db.members[Key(g, r.value)].role != Owner then db' == DropHandle(db, r.value)
         else if forall k :: !IsCandidate(db, g, a, k) then db' == DropGroup(DropHandle(db, r.value), g)
         else exists k :: IsSuccessor(db, g, a, k) &&
                          db' == DropHandle(SetOwner(SetRole(db, k, Owner), g, db.members[k].account), r.value)
  }

  ghost predicate MayManage(db: Db, g: nat, a: int) {
    exists k :: k in db.members && k.group == g && db.members[k].account == a && db.members[k].role != Member
  }

  ghost predicate Matches(db: Db, g: nat, param: string, h: string) {
    Key(g, h) in db.members && (h == param || db.members[Key(g, h)].displayName == param)
  }

  ghost predicate RemoveTx(db: Db, g: nat, caller: int, param: string, r: Result<string, GroupError>, db': Db) {
    if !IsMember(db, g, caller) then r == Failure(NotFound) && db' == db
    else if !MayManage(db, g, caller) then r == Failure(Forbidden) && db' == db
    else if forall h :: !Matches(db, g, param, h) then r == Failure(NotFound) && db' == db
    else exists h :: Matches(db, g, param, h) &&
           if db.members[Key(g, h)].role == Owner then r == Failure(Forbidden) && db' == db
           else r == Success(h) && db' == DropHandle(db, h)
  }

  ghost predicate DeleteTx(db: Db, g: nat, a: int, r: Result<(), GroupError>, db': Db) {
    if g !in db.groups then r == Failure(NotFound) && db' == db
    else if db.groups[g].owner != a then r == Failure(Forbidden) && db' == db
    else r == Success(()) && db' == DropGroup(db, g)
  }

  /** An update request: each part optional. */
  datatype UpdateRequest = UpdateRequest(name: Option<string>, role: Option<(string, string)>,
                                         transferTo: Option<string>)

  function ParseRole(s: string): (r: Option<Role>)
    ensures r != Some(Owner)
  {
    if s == "admin" then Some(Admin) else if s == "member" then Some(Member) else None
  }

  ghost predicate IsOwnerOf(db: Db, g: nat, a: int) {
    exists k :: k in db.members && k.group == g && db.members[k].account == a && db.members[k].role == Owner
  }

  function Renamed(db: Db, g: nat, name: Option<string>): Db {
    if name.Some? && g in db.groups then db.(groups := db.groups[g := db.groups[g].(name := name.value)]) else db
  }

  /** `UPDATE ... SET role WHERE ... AND role != 'owner'`. */
  function Regraded(db: Db, g: nat, role: Option<(string, string)>): Db {
    if role.Some? && ParseRole(role.value.1).Some? && Key(g, role.value.0) in db.members &&
       db.members[Key(g, role.value.0)].role != Owner
    then SetRole(db, Key(g, role.value.0), ParseRole(role.value.1).value) else db
  }

  /** `UPDATE ... SET role = 'admin' WHERE group_id = g AND account_id = a`. */
  function Demoted(db: Db, g: nat, a: int): Db {
    db.(members := map k | k in db.members ::
          if k.group == g && db.members[k].account == a then db.members[k].(role := Admin) else db.members[k])
  }

  function Transferred(db: Db, g: nat, a: int, h: string): Db
    requires Key(g, h) in db.members
  {
    SetOwner(SetRole(Demoted(db, g, a), Key(g, h), Owner), g, db.members[Key(g, h)].account)
  }

  predicate BadName(name: Option<string>) {
    name.Some? && (name.value == "" || |name.value| > 64)
  }

  ghost predicate UpdateTx(db: Db, g: nat, a: int, req: UpdateRequest, r: Result<(), GroupError>, db': Db) {
    if !IsMember(db, g, a) then r == Failure(NotFound) && db' == db
    else if !MayManage(db, g, a) then r == Failure(Forbidden) && db' == db
    else if BadName(req.name) then r == Failure(InvalidName) && db' == db
    else if req.role.Some? && !IsOwnerOf(db, g, a) then r == Failure(Forbidden) && db' == db
    else if req.role.Some? && ParseRole(req.role.value.1).None? then r == Failure(InvalidRole) && db' == db
    else
      var graded := Regraded(Renamed(db, g, req.name), g, req.role);
      if req.transferTo.None? then r == Success(()) && db' == graded
      else if !IsOwnerOf(db, g, a) then r == Failure(Forbidden) && db' == db
      else if Key(g, req.transferTo.value) !in db.members then r == Failure(NotFound) && db' == db
      else Key(g, req.transferTo.value) in graded.members &&
           r == Success(()) && db' == Transferred(graded, g, a, req.transferTo.value)
  }

  ghost predicate RotateTx(db: Db, g: nat, a: int, invite: string, r: Result<(), GroupError>, db': Db) {
    if !IsMember(db, g, a) then r == Failure(NotFound) && db' == db
    else if !MayManage(db, g, a) then r == Failure(Forbidden) && db' == db
    else r == Success(()) &&
         db' == if g in db.groups then db.(groups := db.groups[g := db.groups[g].(invite := invite)]) else db
  }

  // ---------- every statement keeps its part of the invariant ----------

  lemma OwnerCarries(db: Db, db': Db, g: nat)
    requires OneOwner(db, g) && g in db'.groups && db'.groups[g].owner == db.groups[g].owner
    requires forall k | k in db.members && k.group == g && db.members[k].role == Owner ::
               k in db'.members && db'.members[k].role == Owner && db'.members[k].account == db.members[k].account
    requires forall k | k in db'.members && k.group == g && db'.members[k].role == Owner ::
               k in db.members && db.members[k].role == Owner
    ensures OneOwner(db', g)
  {
    var o :| OwnerIs(db, g, o);
    forall l | IsOwnerRow(db', g, l) ensures l == o { assert IsOwnerRow(db, g, l); }
    assert IsOwnerRow(db, g, o);
    assert OwnerIs(db', g, o);
  }

  lemma DropHandleKeepsRows(db: Db, h: string)
    requires RowsInv(db)
    ensures RowsInv(DropHandle(db, h))
  {
    hide Lower;
  }

  lemma DropGroupKeepsRows(db: Db, g: nat)
    requires RowsInv(db)
    ensures RowsInv(DropGroup(db, g))
  {
    hide Lower;
  }

  lemma AddMemberKeepsRows(db: Db, g: nat, h: string, a: int, name: string, role: Role, today: int)
    requires RowsMatchHandles(db) && g > 0 && g in db.groups && h !in db.handles
    ensures RowsMatchHandles(AddMember(db, g, h, a, name, role, today))
  {
  }

  lemma AddMemberKeepsDistinct(db: Db, g: nat, h: string, a: int, name: string, role: Role, today: int)
    requires DistinctMembers(db) && !IsMember(db, g, a) && !NameTaken(db, g, name)
    ensures DistinctMembers(AddMember(db, g, h, a, name, role, today))
  {
    hide Lower;
  }

  // ---------- every transaction keeps the invariant ----------

  lemma DropMemberKeepsInv(db: Db, k: Key)
    requires Inv(db) && k in db.members && db.members[k].role != Owner
    ensures Inv(DropHandle(db, k.handle))
  {
    DropHandleKeepsRows(db, k.handle);
    var db' := DropHandle(db, k.handle);
    hide DistinctMembers, OneOwner;
    forall g | g in db'.groups ensures OneOwner(db', g) {
      forall l | l in db.members && l.handle == k.handle ensures l == k {
        assert db.handles[l.handle].group == l.group;
      }
      OwnerCarries(db, db', g);
    }
  }

  lemma DropGroupKeepsInv(db: Db, g: nat)
    requires Inv(db)
    ensures Inv(DropGroup(db, g))
  {
    DropGroupKeepsRows(db, g);
    var db' := DropGroup(db, g);
    hide DistinctMembers, OneOwner;
    forall f | f in db'.groups ensures OneOwner(db', f) { OwnerCarries(db, db', f); }
  }

  lemma AddMemberKeepsOwners(db: Db, g: nat, h: string, a: int, name: string, role: Role, today: int)
    requires Key(g, h) !in db.members
    requires forall f | f in db.groups && (role == Owner ==> f != g) :: f > 0 && OneOwner(db, f)
    requires role == Owner ==> g > 0 && g in db.groups && db.groups[g].owner == a && forall k :: !IsOwnerRow(db, g, k)
    ensures forall f | f in db.groups :: f > 0 && OneOwner(AddMember(db, g, h, a, name, role, today), f)
  {
    hide OneOwner;
    var db' := AddMember(db, g, h, a, name, role, today);
    forall f | f in db.groups ensures f > 0 && OneOwner(db', f) {
      if role == Owner && f == g {
        NewOwner(db, g, h, a, name, today);
      } else {
        OwnerCarries(db, db', f);
      }
    }
  }

  lemma NewOwner(db: Db, g: nat, h: string, a: int, name: string, today: int)
    requires g in db.groups && db.groups[g].owner == a && forall k :: !IsOwnerRow(db, g, k)
    ensures OneOwner(AddMember(db, g, h, a, name, Owner, today), g)
  {
    var db' := AddMember(db, g, h, a, name, Owner, today);
    forall l | IsOwnerRow(db', g, l) ensures l == Key(g, h) {
      if l != Key(g, h) { assert IsOwnerRow(db, g, l); }
    }
    assert OwnerIs(db', g, Key(g, h));
  }

  lemma MembersHaveGroups(db: Db)
    requires RowsMatchHandles(db)
    ensures forall k | k in db.members :: k.group in db.groups && k.handle in db.handles
  {
  }

  lemma CreateKeepsInv(db: Db, g: nat, row: GroupRow, h: string, a: int, name: string, today: int)
    requires Inv(db) && g > 0 && g !in db.groups && h !in db.handles && row.owner == a
    ensures Inv(AddMember(db.(groups := db.groups[g := row]), g, h, a, name, Owner, today))
  {
    var start := db.(groups := db.groups[g := row]);
    MembersHaveGroups(db);
    AddGroupKeepsInv(db, g, row);
    hide OneOwner, Lower;
    AddMemberKeepsRows(start, g, h, a, name, Owner, today);
    AddMemberKeepsDistinct(start, g, h, a, name, Owner, today);
    AddMemberKeepsOwners(start, g, h, a, name, Owner, today);
    hide DistinctMembers, RowsMatchHandles, AddMember;
  }

  lemma AddGroupKeepsInv(db: Db, g: nat, row: GroupRow)
    requires Inv(db) && g !in db.groups
    ensures RowsInv(db.(groups := db.groups[g := row])) && OwnersBut(db.(groups := db.groups[g := row]), g)
  {
    hide OneOwner, Lower;
    var start := db.(groups := db.groups[g := row]);
    forall f | f in db.groups ensures OneOwner(start, f) { OwnerCarries(db, start, f); }
  }

  lemma JoinKeepsInv(db: Db, g: nat, h: string, a: int, name: string, today: int)
    requires Inv(db) && g in db.groups && h !in db.handles && !IsMember(db, g, a) && !NameTaken(db, g, name)
    ensures Inv(AddMember(db, g, h, a, name, Member, today))
  {
    hide DistinctMembers, RowsMatchHandles, OneOwner, NameTaken, IsMember, AddMember;
    MembersHaveGroups(db);
    AddMemberKeepsRows(db, g, h, a, name, Member, today);
    AddMemberKeepsDistinct(db, g, h, a, name, Member, today);
    OwnersOfAll(db, g);
    AddMemberKeepsOwners(db, g, h, a, name, Member, today);
    SameGroups(db, g, h, a, name, Member, today);
  }

  lemma SameGroups(db: Db, g: nat, h: string, a: int, name: string, role: Role, today: int)
    ensures AddMember(db, g, h, a, name, role, today).groups == db.groups
  {
  }

  lemma OwnersOfAll(db: Db, g: nat)
    requires Inv(db)
    ensures forall f | f in db.groups :: f > 0 && OneOwner(db, f)
  {
    hide OneOwner, RowsInv;
  }

  lemma {:induction false} RoleKeepsRows(db: Db, k: Key, role: Role)
    requires RowsInv(db)
    ensures RowsInv(SetRole(db, k, role))
  {
    hide Lower;
  }

  lemma SetOwnerKeepsRows(db: Db, g: nat, a: int)
    requires RowsInv(db)
    ensures RowsInv(SetOwner(db, g, a))
  {
    hide Lower;
  }

  // The statements of promotion and transfer, each keeping all owners but the group's own.

  lemma SetRoleKeepsOthers(db: Db, k: Key, role: Role)
    requires OwnersBut(db, k.group)
    ensures OwnersBut(SetRole(db, k, role), k.group)
  {
    hide OneOwner;
    var db' := SetRole(db, k, role);
    forall f | f in db'.groups && f != k.group ensures f > 0 && OneOwner(db', f) { OwnerCarries(db, db', f); }
  }

  lemma SetOwnerKeepsOthers(db: Db, g: nat, a: int)
    requires OwnersBut(db, g)
    ensures OwnersBut(SetOwner(db, g, a), g)
  {
    hide OneOwner;
    var db' := SetOwner(db, g, a);
    forall f | f in db'.groups && f != g ensures f > 0 && OneOwner(db', f) { OwnerCarries(db, db', f); }
  }

  lemma DemotedKeepsOthers(db: Db, g: nat, a: int)
    requires OwnersBut(db, g)
    ensures OwnersBut(Demoted(db, g, a), g)
  {
    hide OneOwner;
    var db' := Demoted(db, g, a);
    forall f | f in db'.groups && f != g ensures f > 0 && OneOwner(db', f) { OwnerCarries(db, db', f); }
  }

  lemma DropHandleKeepsOthers(db: Db, o: Key)
    requires OwnersBut(db, o.group) && forall l | l in db.members && l.handle == o.handle :: l == o
    ensures OwnersBut(DropHandle(db, o.handle), o.group)
  {
    hide OneOwner;
    var db' := DropHandle(db, o.handle);
    forall f | f in db'.groups && f != o.group ensures f > 0 && OneOwner(db', f) { OwnerCarries(db, db', f); }
  }

  lemma HandleHasOneRow(db: Db, k: Key)
    requires RowsInv(db) && k in db.members
    ensures forall l | l in db.members && l.handle == k.handle :: l == k
    ensures k.group in db.groups && k.group > 0
  {
  }

  /** Promotion: the old owner's row `o` is dropped and the successor's row `k` takes its place. */
  lemma PromotionKeepsInv(db: Db, g: nat, o: Key, k: Key)
    requires Inv(db) && OwnerIs(db, g, o) && k in db.members && k.group == g && k != o
    ensures Inv(DropHandle(SetOwner(SetRole(db, k, Owner), g, db.members[k].account), o.handle))
  {
    WithoutOwner(db, g);
    HandleHasOneRow(db, o);
    PromotedOwner(db, g, o, k);
    hide OneOwner, RowsInv, OwnersBut, OwnerIs, SetRole, SetOwner, DropHandle;
    var graded := SetRole(db, k, Owner);
    RoleKeepsRows(db, k, Owner);
    SetRoleKeepsOthers(db, k, Owner);
    var promoted := SetOwner(graded, g, db.members[k].account);
    SetOwnerKeepsRows(graded, g, db.members[k].account);
    SetOwnerKeepsOthers(graded, g, db.members[k].account);
    DropHandleKeepsRows(promoted, o.handle);
    PromotedHandles(db, g, o, k);
    DropHandleKeepsOthers(promoted, o);
    WithOwner(DropHandle(promoted, o.handle), g);
  }

  lemma PromotedHandles(db: Db, g: nat, o: Key, k: Key)
    requires k in db.members && forall l | l in db.members && l.handle == o.handle :: l == o
    ensures forall l | l in SetOwner(SetRole(db, k, Owner), g, db.members[k].account).members &&
        l.handle == o.handle :: l == o
  {
  }

  lemma WithOwner(db: Db, g: nat)
    requires RowsInv(db) && OwnersBut(db, g) && OneOwner(db, g) && g > 0
    ensures Inv(db)
  {
    hide OneOwner;
  }

  lemma WithoutOwner(db: Db, g: nat)
    requires Inv(db)
    ensures RowsInv(db) && OwnersBut(db, g)
    ensures g in db.groups ==> OneOwner(db, g)
  {
    hide OneOwner;
  }

  lemma PromotedOwner(db: Db, g: nat, o: Key, k: Key)
    requires OwnerIs(db, g, o) && k in db.members && k.group == g && k != o
    ensures OneOwner(DropHandle(SetOwner(SetRole(db, k, Owner), g, db.members[k].account), o.handle), g)
  {
    var db' := DropHandle(SetOwner(SetRole(db, k, Owner), g, db.members[k].account), o.handle);
    assert forall l | IsOwnerRow(db', g, l) :: l == k || IsOwnerRow(db, g, l);
    assert OwnerIs(db', g, k);
  }

  lemma DeleteLastIsDropGroup(db: Db, g: nat, h: string)
    requires RowsInv(db) && Key(g, h) in db.members
    ensures DropGroup(DropHandle(db, h), g) == DropGroup(db, g)
  {
    HandleHasOneRow(db, Key(g, h));
    assert db.handles[h].group == g;
    var l, r := DropGroup(DropHandle(db, h), g), DropGroup(db, g);
    assert l.handles == r.handles;
    assert l.members == r.members;
    assert l.aliases == r.aliases;
  }

  /** The transfer: the caller steps down to admin, then the named member becomes owner; naming oneself
      changes nothing in the end. */
  lemma TransferKeepsInv(db: Db, g: nat, a: int, h: string)
    requires Inv(db) && IsOwnerOf(db, g, a) && Key(g, h) in db.members
    ensures Inv(Transferred(db, g, a, h))
  {
    WithoutOwner(db, g);
    HandleHasOneRow(db, Key(g, h));
    TransferredOwner(db, g, a, h);
    KeyDemoted(db, g, a, Key(g, h));
    hide OneOwner, RowsInv, OwnersBut, SetRole, SetOwner, Demoted;
    var k, down := Key(g, h), Demoted(db, g, a);
    DemotedRows(db, g, a);
    DemotedKeepsOthers(db, g, a);
    RoleKeepsRows(down, k, Owner);
    SetRoleKeepsOthers(down, k, Owner);
    SetOwnerKeepsRows(SetRole(down, k, Owner), g, db.members[k].account);
    SetOwnerKeepsOthers(SetRole(down, k, Owner), g, db.members[k].account);
    WithOwner(Transferred(db, g, a, h), g);
  }

  lemma KeyDemoted(db: Db, g: nat, a: int, k: Key)
    requires k in db.members
    ensures k in Demoted(db, g, a).members && Demoted(db, g, a).members[k].account == db.members[k].account
  {
  }

  lemma DemotedRows(db: Db, g: nat, a: int)
    requires RowsInv(db)
    ensures RowsInv(Demoted(db, g, a))
  {
    hide Lower;
  }

  lemma TransferredOwner(db: Db, g: nat, a: int, h: string)
    requires OneOwner(db, g) && IsOwnerOf(db, g, a) && Key(g, h) in db.members
    ensures OneOwner(Transferred(db, g, a, h), g)
  {
    var db', k := Transferred(db, g, a, h), Key(g, h);
    var o :| o in db.members && o.group == g && db.members[o].account == a && db.members[o].role == Owner;
    assert IsOwnerRow(db, g, o);
    assert forall l | IsOwnerRow(db', g, l) :: l == k || IsOwnerRow(db, g, l);
    assert OwnerIs(db', g, k);
  }

  lemma RenameKeepsInv(db: Db, g: nat, name: Option<string>)
    requires Inv(db)
    ensures Inv(Renamed(db, g, name))
  {
    hide Lower, OneOwner;
    var db' := Renamed(db, g, name);
    forall f | f in db'.groups ensures f > 0 && OneOwner(db', f) { OwnerCarries(db, db', f); }
  }

  lemma SetRoleKeepsOwner(db: Db, k: Key, role: Role)
    requires OneOwner(db, k.group) && k in db.members && db.members[k].role != Owner && role != Owner
    ensures OneOwner(SetRole(db, k, role), k.group)
  {
    hide Inv, RowsInv, OwnersBut;
    var o :| OwnerIs(db, k.group, o);
    var db' := SetRole(db, k, role);
    forall l | IsOwnerRow(db', k.group, l) ensures l == o { assert IsOwnerRow(db, k.group, l); }
    assert OwnerIs(db', k.group, o);
  }

  lemma SetRoleKeepsInv(db: Db, k: Key, role: Role)
    requires Inv(db) && k in db.members && db.members[k].role != Owner && role != Owner
    ensures Inv(SetRole(db, k, role))
  {
    WithoutOwner(db, k.group);
    HandleHasOneRow(db, k);
    hide Inv, OneOwner, RowsInv, OwnersBut, SetRole;
    SetRoleKeepsOwner(db, k, role);
    RoleKeepsRows(db, k, role);
    SetRoleKeepsOthers(db, k, role);
    WithOwner(SetRole(db, k, role), k.group);
  }

  lemma RegradeKeepsInv(db: Db, g: nat, role: Option<(string, string)>)
    requires Inv(db)
    ensures Inv(Regraded(db, g, role))
  {
    hide Inv, SetRole, ParseRole;
    if Regraded(db, g, role) != db {
      SetRoleKeepsInv(db, Key(g, role.value.0), ParseRole(role.value.1).value);
    }
  }

  lemma CreateTxKeepsInv(db: Db, a: int, name: string, invite: string, display: string, handle: string, today: int,
                         maxPerAccount: nat, r: Result<nat, GroupError>, db': Db)
    requires Inv(db) && CreateTx(db, a, name, invite, display, handle, today, maxPerAccount, r, db')
    ensures Inv(db')
  {
    hide Inv;
    if r.Success? {
      CreateKeepsInv(db, r.value, GroupRow(name, invite, a), handle, a, display, today);
    }
  }

  lemma JoinTxKeepsInv(db: Db, a: int, invite: string, display: string, handle: string, today: int,
                       maxPerAccount: nat, maxMembers: nat, r: Result<nat, GroupError>, db': Db)
    requires Inv(db) && JoinTx(db, a, invite, display, handle, today, maxPerAccount, maxMembers, r, db')
    ensures Inv(db')
    ensures r.Success? ==> r.value in db.groups && handle !in db.handles &&
                           db' == AddMember(db, r.value, handle, a, display, Member, today)
  {
    hide Inv, AddMember, NameTaken, IsMember, GroupsOf;
    if r.Success? {
      JoinKeepsInv(db, r.value, handle, a, display, today);
    }
  }

  lemma LeaveTxKeepsInv(db: Db, g: nat, a: int, r: Result<string, GroupError>, db': Db)
    requires Inv(db) && LeaveTx(db, g, a, r, db')
    ensures Inv(db')
  {
    hide Inv, IsMember, DropHandle, DropGroup, SetOwner, SetRole;
    if r.Success? {
      var o := Key(g, r.value);
      if db.members[o].role != Owner {
        DropMemberKeepsInv(db, o);
      } else if forall k :: !IsCandidate(db, g, a, k) {
        InvParts(db, g);
        DeleteLastIsDropGroup(db, g, r.value);
        DropGroupKeepsInv(db, g);
      } else {
        var k :| IsSuccessor(db, g, a, k) &&
                 db' == DropHandle(SetOwner(SetRole(db, k, Owner), g, db.members[k].account), r.value);
        TheOwner(db, g, o);
        PromotionKeepsInv(db, g, o, k);
      }
    }
  }

  lemma InvParts(db: Db, g: nat)
    requires Inv(db)
    ensures RowsInv(db)
  {
  }

  lemma TheOwner(db: Db, g: nat, o: Key)
    requires Inv(db) && IsOwnerRow(db, g, o)
    ensures OwnerIs(db, g, o)
  {
    MembersHaveGroups(db);
    assert OneOwner(db, g);
  }

  lemma RemoveTxKeepsInv(db: Db, g: nat, caller: int, param: string, r: Result<string, GroupError>, db': Db)
    requires Inv(db) && RemoveTx(db, g, caller, param, r, db')
    ensures Inv(db')
  {
    hide Inv, IsMember, MayManage, DropHandle;
    if r.Success? {
      DropMemberKeepsInv(db, Key(g, r.value));
    }
  }

  lemma DeleteTxKeepsInv(db: Db, g: nat, a: int, r: Result<(), GroupError>, db': Db)
    requires Inv(db) && DeleteTx(db, g, a, r, db')
    ensures Inv(db')
  {
    DropGroupKeepsInv(db, g);
  }

  lemma UpdateTxKeepsInv(db: Db, g: nat, a: int, req: UpdateRequest, r: Result<(), GroupError>, db': Db)
    requires Inv(db) && UpdateTx(db, g, a, req, r, db')
    ensures Inv(db')
  {
    hide Inv, IsMember, MayManage, Renamed, Regraded, Transferred, ParseRole;
    var named := Renamed(db, g, req.name);
    var graded := Regraded(named, g, req.role);
    RenameKeepsInv(db, g, req.name);
    RegradeKeepsInv(named, g, req.role);
    if req.transferTo.Some? && r.Success? {
      StillOwner(db, g, a, req.name, req.role);
      TransferKeepsInv(graded, g, a, req.transferTo.value);
    }
  }

  /** Renaming and regrading leave the owner row alone. */
  lemma StillOwner(db: Db, g: nat, a: int, name: Option<string>, role: Option<(string, string)>)
    requires IsOwnerOf(db, g, a)
    ensures IsOwnerOf(Regraded(Renamed(db, g, name), g, role), g, a)
  {
    var k :| k in db.members && k.group == g && db.members[k].account == a && db.members[k].role == Owner;
    assert k in Regraded(Renamed(db, g, name), g, role).members;
  }

  lemma RotateTxKeepsInv(db: Db, g: nat, a: int, invite: string, r: Result<(), GroupError>, db': Db)
    requires Inv(db) && RotateTx(db, g, a, invite, r, db')
    ensures Inv(db')
  {
    hide Lower, OneOwner, IsMember, MayManage;
    forall f | f in db'.groups ensures f > 0 && OneOwner(db', f) { OwnerCarries(db, db', f); }
  }

  // ---------- the transactions, statement by statement ----------

  /** The tables. A transaction that fails leaves them as they were. */
  class GroupStore {
    var db: Db

    constructor (db: Db)
      ensures this.db == db
    {
      this.db := db;
    }

    method Create(a: int, name: string, invite: string, display: string, handle: string, today: int, maxPerAccount: nat,
                  newId: nat)
      returns (r: Result<nat, GroupError>)
      requires newId > 0 && newId !in db.groups
      modifies this
      ensures CreateTx(old(db), a, name, invite, display, handle, today, maxPerAccount, r, db)
      ensures r.Success? ==> r.value == newId
    {
      if |GroupsOf(db, a)| >= maxPerAccount {
        return Failure(MaxGroupsReached);
      }
      var start := db;
      db := db.(groups := db.groups[newId := GroupRow(name, invite, a)]);
      if handle in db.handles {
        db := start;
        return Failure(Internal);
      }
      db := db.(handles := db.handles[handle := HandleRow(a, Group, newId, false)]);
      db := db.(members := db.members[Key(newId, handle) := MemberRow(a, display, Owner, today, db.nextRowid)],
                nextRowid := db.nextRowid + 1);
      r := Success(newId);
    }

    method Join(a: int, invite: string, display: string, handle: string, today: int, maxPerAccount: nat,
                maxMembers: nat)
      returns (r: Result<nat, GroupError>)
      modifies this
      ensures JoinTx(old(db), a, invite, display, handle, today, maxPerAccount, maxMembers, r, db)
    {
      if g :| g in db.groups && db.groups[g].invite == invite {
        r := JoinGroup(g, a, display, handle, today, maxPerAccount, maxMembers);
      } else {
        r := Failure(NotFound);
      }
    }

    method JoinGroup(g: nat, a: int, display: string, handle: string, today: int, maxPerAccount: nat, maxMembers: nat)
      returns (r: Result<nat, GroupError>)
      modifies this
      ensures JoinGroupTx(old(db), g, a, display, handle, today, maxPerAccount, maxMembers, r, db)
    {
      if k :| k in db.members && k.group == g && db.members[k].account == a {
        return Failure(AlreadyMember);
      }
      if |GroupsOf(db, a)| >= maxPerAccount {
        return Failure(MaxGroupsReached);
      }
      if Count(db, g) >= maxMembers {
        return Failure(GroupFull);
      }
      if k :| k in db.members && k.group == g && Lower(db.members[k].displayName) == Lower(display) {
        return Failure(DisplayNameTaken);
      }
      if handle in db.handles {
        return Failure(Internal);
      }
      db := db.(handles := db.handles[handle := HandleRow(a, Group, g, false)]);
      db := db.(members := db.members[Key(g, handle) := MemberRow(a, display, Member, today, db.nextRowid)],
                nextRowid := db.nextRowid + 1);
      r := Success(g);
    }

    /** `ORDER BY CASE WHEN role = 'admin' THEN 0 ELSE 1 END, joined_day, rowid LIMIT 1`. */
    method FindSuccessor(g: nat, a: int) returns (best: Option<Key>)
      ensures best.None? ==> forall k :: !IsCandidate(db, g, a, k)
      ensures best.Some? ==> IsSuccessor(db, g, a, best.value)
    {
      best := None;
      var rest := db.members.Keys;
      while rest != {}
        invariant rest <= db.members.Keys
        invariant best.None? ==> forall k :: IsCandidate(db, g, a, k) ==> k in rest
        invariant best.Some? ==> IsCandidate(db, g, a, best.value)
        invariant best.Some? ==> forall k :: IsCandidate(db, g, a, k) && k !in rest ==>
                                   !Precedes(db.members[k], db.members[best.value])
        decreases rest
      {
        var k :| k in rest;
        rest := rest - {k};
        if k.group == g && db.members[k].account != a &&
           (best.None? || Precedes(db.members[k], db.members[best.value])) {
          best := Some(k);
        }
      }
    }

    method Leave(g: nat, a: int) returns (r: Result<string, GroupError>)
      modifies this
      ensures LeaveTx(old(db), g, a, r, db)
    {
      hide Precedes, DropHandle, DropGroup;
      if k :| k in db.members && k.group == g && db.members[k].account == a {
        var burned, role := k.handle, db.members[k].role;
        assert IsMember(db, g, a) && k == Key(g, burned);
        if role == Owner {
          var next := FindSuccessor(g, a);
          if next.None? {
            db := DropHandle(db, burned);
            db := DropGroup(db, g);
            return Success(burned);
          }
          var nextOwner := db.members[next.value].account;
          db := SetRole(db, next.value, Owner);
          db := SetOwner(db, g, nextOwner);
          assert IsCandidate(old(db), g, a, next.value);
        }
        db := DropHandle(db, burned);
        r := Success(burned);
      } else {
        r := Failure(NotFound);
      }
    }

    method FindRow(g: nat, account: int) returns (row: Option<Key>)
      requires Inv(db)
      ensures row.None? <==> !IsMember(db, g, account)
      ensures row.Some? ==> row.value in db.members && row.value.group == g && db.members[row.value].account == account
      ensures row.Some? ==> (MayManage(db, g, account) <==> db.members[row.value].role != Member)
    {
      hide Inv;
      if k :| k in db.members && k.group == g && db.members[k].account == account {
        RoleIsUnique(db, g, k);
        return Some(k);
      }
      row := None;
    }

    method FindMatch(g: nat, param: string) returns (handle: Option<string>)
      ensures handle.None? ==> forall h :: !Matches(db, g, param, h)
      ensures handle.Some? ==> Matches(db, g, param, handle.value)
    {
      if l :| l in db.members && l.group == g && (l.handle == param || db.members[l].displayName == param) {
        assert l == Key(g, l.handle);
        return Some(l.handle);
      }
      handle := None;
    }

    method Remove(g: nat, caller: int, param: string) returns (r: Result<string, GroupError>)
      requires Inv(db)
      modifies this
      ensures RemoveTx(old(db), g, caller, param, r, db)
    {
      hide DropHandle, Inv, IsMember, MayManage;
      var row := FindRow(g, caller);
      if row.None? {
        return Failure(NotFound);
      }
      if db.members[row.value].role == Member {
        return Failure(Forbidden);
      }
      var found := FindMatch(g, param);
      if found.None? {
        return Failure(NotFound);
      }
      var h := found.value;
      assert Matches(db, g, param, h);
      if db.members[Key(g, h)].role == Owner {
        return Failure(Forbidden);
      }
      db := DropHandle(db, h);
      r := Success(h);
    }

    method Delete(g: nat, a: int) returns (r: Result<(), GroupError>)
      modifies this
      ensures DeleteTx(old(db), g, a, r, db)
    {
      if g !in db.groups {
        return Failure(NotFound);
      }
      if db.groups[g].owner != a {
        return Failure(Forbidden);
      }
      db := DropGroup(db, g);
      r := Success(());
    }

    method Rotate(g: nat, a: int, invite: string) returns (r: Result<(), GroupError>)
      requires Inv(db)
      modifies this
      ensures RotateTx(old(db), g, a, invite, r, db)
    {
      if k :| k in db.members && k.group == g && db.members[k].account == a {
        RoleIsUnique(db, g, k);
        if db.members[k].role == Member {
          return Failure(Forbidden);
        }
        if g in db.groups {
          db := db.(groups := db.groups[g := db.groups[g].(invite := invite)]);
        }
        r := Success(());
      } else {
        r := Failure(NotFound);
      }
    }

    method Update(g: nat, a: int, req: UpdateRequest) returns (r: Result<(), GroupError>)
      requires Inv(db)
      modifies this
      ensures UpdateTx(old(db), g, a, req, r, db)
    {
      hide ParseRole, Demoted, SetRole, SetOwner;
      if k :| k in db.members && k.group == g && db.members[k].account == a {
        RoleIsUnique(db, g, k);
        var callerRole := db.members[k].role;
        if callerRole == Member {
          return Failure(Forbidden);
        }
        var start := db;
        if req.name.Some? {
          if req.name.value == "" || |req.name.value| > 64 {
            return Failure(InvalidName);
          }
          db := Renamed(db, g, req.name);
        }
        if req.role.Some? {
          if callerRole != Owner {
            db := start;
            return Failure(Forbidden);
          }
          if ParseRole(req.role.value.1).None? {
            db := start;
            return Failure(InvalidRole);
          }
          db := Regraded(db, g, req.role);
        }
        assert db == Regraded(Renamed(start, g, req.name), g, req.role);
        SameKeys(start, g, req.name, req.role);
        if req.transferTo.Some? {
          var key := Key(g, req.transferTo.value);
          if callerRole != Owner {
            db := start;
            return Failure(Forbidden);
          }
          if key !in db.members {
            db := start;
            return Failure(NotFound);
          }
          var newOwner := db.members[key].account;
          db := Demoted(db, g, a);
          db := SetRole(db, key, Owner);
          db := SetOwner(db, g, newOwner);
        }
        r := Success(());
      } else {
        r := Failure(NotFound);
      }
    }
  }

  /** An account has at most one row, so at most one role, in a group. */
  lemma RoleIsUnique(db: Db, g: nat, k: Key)
    requires Inv(db) && k in db.members && k.group == g
    ensures IsMember(db, g, db.members[k].account)
    ensures MayManage(db, g, db.members[k].account) <==> db.members[k].role != Member
    ensures IsOwnerOf(db, g, db.members[k].account) <==> db.members[k].role == Owner
  {
    hide Lower, OneOwner, RowsMatchHandles;
  }

  lemma SameKeys(db: Db, g: nat, name: Option<string>, role: Option<(string, string)>)
    ensures Regraded(Renamed(db, g, name), g, role).members.Keys == db.members.Keys
  {
  }
}
