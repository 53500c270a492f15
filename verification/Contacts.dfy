/** Merging contact lists (web/core/src/contacts.ts:96-156). Projected to handle -> (day, deleted) a
    list is a point of a lattice, and merging is its join. */
module Contacts {

  datatype Entry = Entry(handle: string, nickname: string, addedDay: int, deleted: bool)

  /** What decides a merge: the day of the change and whether it was a deletion. */
  datatype Stamp = Stamp(day: int, deleted: bool)

  type View = map<string, Stamp>

  // ---------- trimming handles ----------

  /** The white space and line terminators `String.prototype.trim` removes. */
  predicate IsSpace(c: char) {
    var n := c as int;
    9 <= n <= 13 || n == 32 || n == 0xa0 || n == 0x1680 || 0x2000 <= n <= 0x200a || n == 0x2028 || n == 0x2029 ||
    n == 0x202f || n == 0x205f || n == 0x3000 || n == 0xfeff
  }

  function TrimLeft(s: string): string {
    if s != [] && IsSpace(s[0]) then TrimLeft(s[1..]) else s
  }

  function TrimRight(s: string): string {
    if s != [] && IsSpace(s[|s| - 1]) then TrimRight(s[..|s| - 1]) else s
  }

  function Trim(s: string): string {
    TrimRight(TrimLeft(s))
  }

  predicate IsTrimmed(s: string) {
    s == [] || (!IsSpace(s[0]) && !IsSpace(s[|s| - 1]))
  }

  lemma {:induction false} TrimLeftStart(s: string)
    ensures TrimLeft(s) == [] || !IsSpace(TrimLeft(s)[0])
  {
    if s != [] && IsSpace(s[0]) { TrimLeftStart(s[1..]); }
  }

  lemma {:induction false} TrimRightEnds(s: string)
    requires s == [] || !IsSpace(s[0])
    ensures IsTrimmed(TrimRight(s))
  {
    if s != [] && IsSpace(s[|s| - 1]) { TrimRightEnds(s[..|s| - 1]); }
  }

  lemma TrimTrims(s: string)
    ensures IsTrimmed(Trim(s))
    ensures IsTrimmed(s) ==> Trim(s) == s
  {
    TrimLeftStart(s);
    TrimRightEnds(TrimLeft(s));
  }

  // ---------- the lattice ----------

  /** The later day wins; on the same day a deletion wins. */
  predicate Below(a: Stamp, b: Stamp) {
    a.day < b.day || (a.day == b.day && (a.deleted ==> b.deleted))
  }

  function Later(a: Stamp, b: Stamp): Stamp {
    if Below(a, b) then b else a
  }

  ghost predicate Leq(a: View, b: View) {
    forall h | h in a :: h in b && Below(a[h], b[h])
  }

  function Join(a: View, b: View): (r: View)
    ensures r.Keys == a.Keys + b.Keys
  {
    map h | h in a.Keys + b.Keys :: if h !in b then a[h] else if h !in a then b[h] else Later(a[h], b[h])
  }

  /** `Join(a, b)` is the least view above both. */
  lemma JoinIsLeast(a: View, b: View, c: View)
    ensures Leq(a, Join(a, b)) && Leq(b, Join(a, b))
    ensures Leq(a, c) && Leq(b, c) <==> Leq(Join(a, b), c)
  {
    var j := Join(a, b);
    if Leq(j, c) {
      forall h | h in a ensures h in c && Below(a[h], c[h]) { assert h in j && Below(a[h], j[h]); }
      forall h | h in b ensures h in c && Below(b[h], c[h]) { assert h in j && Below(b[h], j[h]); }
    }
  }

  lemma LeqIsOrder(a: View, b: View, c: View)
    ensures Leq(a, a)
    ensures Leq(a, b) && Leq(b, a) ==> a == b
    ensures Leq(a, b) && Leq(b, c) ==> Leq(a, c)
  {
  }

  /** Main result: merging is commutative, associative and idempotent. */
  lemma JoinLaws(a: View, b: View, c: View)
    ensures Join(a, b) == Join(b, a)
    ensures Join(Join(a, b), c) == Join(a, Join(b, c))
    ensures Join(a, a) == a
    ensures Leq(a, b) <==> Join(a, b) == b
  {
    hide Join, Leq;
    JoinAssociates(a, b, c);
    JoinCommutes(a, b);
    JoinAbsorbs(a, b);
  }

  lemma JoinAssociates(a: View, b: View, c: View)
    ensures Join(Join(a, b), c) == Join(a, Join(b, c))
  {
    var ab, bc := Join(a, b), Join(b, c);
    forall h | h in ab.Keys + c.Keys ensures Join(ab, c)[h] == Join(a, bc)[h] {
    }
  }

  lemma JoinCommutes(a: View, b: View)
    ensures Join(a, b) == Join(b, a)
  {
  }

  lemma JoinAbsorbs(a: View, b: View)
    ensures Join(a, a) == a
    ensures Leq(a, b) <==> Join(a, b) == b
  {
    if Join(a, b) == b { JoinIsLeast(a, b, b); }
  }

  // ---------- lists as views ----------

  function DayOf(e: Entry, today: int): int {
    if e.addedDay == 0 then today else e.addedDay
  }

  function StampOf(e: Entry, today: int): Stamp {
    Stamp(DayOf(e, today), e.deleted)
  }

  /** The view of one entry; an entry whose handle is blank says nothing. */
  function EntryView(e: Entry, today: int): View {
    if Trim(e.handle) == "" then map[] else map[Trim(e.handle) := StampOf(e, today)]
  }

  function ViewOf(list: seq<Entry>, today: int): View {
    if list == [] then map[] else Join(ViewOf(list[..|list| - 1], today), EntryView(list[|list| - 1], today))
  }

  /** One entry per handle, trimmed and dated. */
  ghost predicate Canonical(list: seq<Entry>) {
    (forall i | 0 <= i < |list| :: IsTrimmed(list[i].handle) && list[i].handle != "" && list[i].addedDay != 0) &&
    (forall i | 0 <= i < |list| :: list[i].deleted ==> list[i].nickname == "") &&
    (forall i, j | 0 <= i < j < |list| :: list[i].handle != list[j].handle)
  }

  /** `out` is a result of merging the two lists on day `today`, in any order: the join of days and deletions, with the
      names that inserting the remote and then the local list leaves. */
  ghost predicate IsMerge(local: seq<Entry>, remote: seq<Entry>, today: int, out: seq<Entry>) {
    && Canonical(out) && ViewOf(out, today) == Join(ViewOf(remote, today), ViewOf(local, today))
    && HoldsValues(out, AfterUpserts(map[], remote + local, today))
  }

  predicate HoldsValues(out: seq<Entry>, m: map<string, Entry>) {
    forall i | 0 <= i < |out| :: out[i].handle in m && out[i] == m[out[i].handle]
  }

  lemma ViewSnoc(list: seq<Entry>, e: Entry, today: int)
    ensures ViewOf(list + [e], today) == Join(ViewOf(list, today), EntryView(e, today))
  {
    assert (list + [e])[..|list|] == list;
  }

  lemma JoinOne(v: View, h: string, s: Stamp)
    ensures Join(v, map[h := s]) == v[h := if h in v then Later(v[h], s) else s]
  {
  }

  ghost predicate HasHandle(list: seq<Entry>, h: string) {
    exists i :: 0 <= i < |list| && list[i].handle == h
  }

  lemma HasHandleSnoc(list: seq<Entry>, e: Entry, h: string)
    ensures HasHandle(list + [e], h) <==> HasHandle(list, h) || e.handle == h
  {
    if HasHandle(list, h) {
      var i :| 0 <= i < |list| && list[i].handle == h;
      assert (list + [e])[i].handle == h;
    }
    if e.handle == h { assert (list + [e])[|list|].handle == h; }
  }

  /** In a canonical list every entry has its own key, whatever the day. */
  lemma {:induction false} CanonicalView(list: seq<Entry>, today: int)
    requires Canonical(list)
    ensures forall h :: h in ViewOf(list, today) <==> HasHandle(list, h)
    ensures forall i | 0 <= i < |list| ::
              list[i].handle in ViewOf(list, today) &&
              ViewOf(list, today)[list[i].handle] == Stamp(list[i].addedDay, list[i].deleted)
  {
    hide Trim;
    if list != [] {
      var n := |list| - 1;
      var first, e := list[..n], list[n];
      CanonicalView(first, today);
      TrimTrims(e.handle);
      assert list == first + [e];
      ViewSnoc(first, e, today);
      hide ViewOf, IsTrimmed;
      JoinOne(ViewOf(first, today), e.handle, StampOf(e, today));
      forall h ensures h in ViewOf(list, today) <==> HasHandle(list, h) { HasHandleSnoc(first, e, h); }
      forall i | 0 <= i < n ensures list[i].handle in ViewOf(first, today) { assert first[i] == list[i]; }
      assert !HasHandle(first, e.handle);
    }
  }

  lemma CanonicalViewAnyDay(list: seq<Entry>, today: int, other: int)
    requires Canonical(list)
    ensures ViewOf(list, today) == ViewOf(list, other)
  {
    CanonicalView(list, today);
    CanonicalView(list, other);
    var a, b := ViewOf(list, today), ViewOf(list, other);
    forall h | h in a ensures h in b && a[h] == b[h] {
      assert HasHandle(list, h);
      var i :| 0 <= i < |list| && list[i].handle == h;
    }
  }

  // ---------- the merge ----------

  /** The accumulator: keyed by trimmed handle, every entry dated. */
  ghost predicate Keyed(m: map<string, Entry>) {
    forall h | h in m :: h != "" && IsTrimmed(h) && m[h].handle == h && m[h].addedDay != 0 &&
                         (m[h].deleted ==> m[h].nickname == "")
  }

  function MapView(m: map<string, Entry>): View {
    map h | h in m :: Stamp(m[h].addedDay, m[h].deleted)
  }

  lemma MapViewUpdate(m: map<string, Entry>, h: string, e: Entry)
    ensures MapView(m[h := e]) == MapView(m)[h := Stamp(e.addedDay, e.deleted)]
  {
  }

  /** The first of two nicknames that is not empty. */
  function FirstOf(a: string, b: string): string {
    if a != "" then a else b
  }

  /** What an accumulated entry and a new one of the same handle make: the later stamp, and unless that is a deletion
      the nickname of the later entry, the new one's on the same day, or else the other's. */
  function Settled(was: Entry, next: Entry): Entry {
    var stamp := Later(Stamp(was.addedDay, was.deleted), Stamp(next.addedDay, next.deleted));
    var nickname := if next.addedDay >= was.addedDay then FirstOf(next.nickname, was.nickname)
                    else FirstOf(was.nickname, next.nickname);
    Entry(was.handle, if stamp.deleted then "" else nickname, stamp.day, stamp.deleted)
  }

  function AfterUpsert(m: map<string, Entry>, e: Entry, today: int): map<string, Entry> {
    var h := Trim(e.handle);
    if h == "" then m
    else if h in m then m[h := Settled(m[h], Entry(h, e.nickname, DayOf(e, today), e.deleted))]
    else m[h := Entry(h, if e.deleted then "" else e.nickname, DayOf(e, today), e.deleted)]
  }

  function AfterUpserts(m: map<string, Entry>, list: seq<Entry>, today: int): map<string, Entry> {
    if list == [] then m else AfterUpsert(AfterUpserts(m, list[..|list| - 1], today), list[|list| - 1], today)
  }

  lemma {:induction false} UpsertsConcat(m: map<string, Entry>, a: seq<Entry>, b: seq<Entry>, today: int)
    ensures AfterUpserts(m, a + b, today) == AfterUpserts(AfterUpserts(m, a, today), b, today)
  {
    hide AfterUpsert;
    if b == [] {
      assert a + b == a;
    } else {
      var n := |b| - 1;
      UpsertsConcat(m, a, b[..n], today);
      assert (a + b)[..|a| + n] == a + b[..n];
    }
  }

  predicate IsFor(e: Entry, h: string) {
    Trim(e.handle) == h
  }

  ghost predicate OnDay(list: seq<Entry>, h: string, today: int, day: int, deleted: bool) {
    exists i :: 0 <= i < |list| && IsFor(list[i], h) && DayOf(list[i], today) == day && list[i].deleted == deleted
  }

  /** Main result on days and deletions: what a merge keeps of a handle is of the latest day that any of its entries
      has, and is deleted exactly if some entry of that day is. */
  lemma {:induction false} LatestDecides(list: seq<Entry>, today: int, h: string)
    requires h != ""
    ensures var m := AfterUpserts(map[], list, today);
            && (h in m <==> exists i :: 0 <= i < |list| && IsFor(list[i], h))
            && (h in m ==>
                  && (forall i | 0 <= i < |list| && IsFor(list[i], h) :: DayOf(list[i], today) <= m[h].addedDay)
                  && OnDay(list, h, today, m[h].addedDay, m[h].deleted)
                  && (m[h].deleted <==> OnDay(list, h, today, m[h].addedDay, true)))
  {
    hide Trim, DayOf;
    if list != [] {
      var n := |list| - 1;
      var rest, last := list[..n], list[n];
      LatestDecides(rest, today, h);
      assert list == rest + [last];
      var before := AfterUpserts(map[], rest, today);
      forall day, deleted
        ensures OnDay(list, h, today, day, deleted) <==>
          OnDay(rest, h, today, day, deleted) ||
          (IsFor(last, h) && DayOf(last, today) == day && last.deleted == deleted)
      {
        OnDaySnoc(rest, last, h, today, day, deleted);
      }
      assert (exists i :: 0 <= i < |list| && IsFor(list[i], h)) <==>
        (exists i :: 0 <= i < |rest| && IsFor(rest[i], h)) || IsFor(last, h) by { ForSnoc(rest, last, h); }
    }
  }

  lemma OnDaySnoc(rest: seq<Entry>, last: Entry, h: string, today: int, day: int, deleted: bool)
    ensures OnDay(rest + [last], h, today, day, deleted) <==>
      OnDay(rest, h, today, day, deleted) || (IsFor(last, h) && DayOf(last, today) == day && last.deleted == deleted)
  {
    hide IsFor, DayOf;
    var list := rest + [last];
    if i :| 0 <= i < |rest| && IsFor(rest[i], h) && DayOf(rest[i], today) == day && rest[i].deleted == deleted {
      assert list[i] == rest[i];
    }
    assert list[|rest|] == last;
  }

  lemma ForSnoc(rest: seq<Entry>, last: Entry, h: string)
    ensures (exists i :: 0 <= i < |rest + [last]| && IsFor((rest + [last])[i], h)) <==>
      (exists i :: 0 <= i < |rest| && IsFor(rest[i], h)) || IsFor(last, h)
  {
    hide IsFor;
    var list := rest + [last];
    if i :| 0 <= i < |rest| && IsFor(rest[i], h) { assert list[i] == rest[i]; }
    assert list[|rest|] == last;
  }

  // ---------- when it matters which list is local ----------

  /** Two live entries of one day with different names: the local one's wins. */
  predicate Clash(a: Entry, b: Entry, today: int) {
    DayOf(a, today) == DayOf(b, today) && !a.deleted && !b.deleted &&
    a.nickname != "" && b.nickname != "" && a.nickname != b.nickname
  }

  /** A live entry without a name after a deleted one that still has its name: the name is cleared when the deleted
      entry is inserted first, and passed on when it is inserted second. */
  predicate Revives(a: Entry, b: Entry, today: int) {
    DayOf(a, today) > DayOf(b, today) && !a.deleted && a.nickname == "" && b.deleted && b.nickname != ""
  }

  predicate OrderMatters(a: Entry, b: Entry, today: int) {
    Clash(a, b, today) || Revives(a, b, today) || Revives(b, a, today)
  }

  /** Two given entries of one handle merge alike in both orders exactly when none of these is the case. */
  lemma PairOrderIff(a: Entry, b: Entry, today: int)
    requires Trim(a.handle) == Trim(b.handle) != ""
    ensures AfterUpserts(map[], [b] + [a], today) == AfterUpserts(map[], [a] + [b], today) <==>
      !OrderMatters(a, b, today)
  {
    var h := Trim(a.handle);
    TwoUpserts(a, b, today);
    TwoUpserts(b, a, today);
    hide Trim, AfterUpserts, AfterUpsert;
    var ab, ba := AfterUpserts(map[], [a] + [b], today), AfterUpserts(map[], [b] + [a], today);
    assert ab == ba <==> ab[h] == ba[h];
  }

  /** The entry that a first insertion makes. */
  function Inserted(e: Entry, today: int): Entry {
    Entry(Trim(e.handle), if e.deleted then "" else e.nickname, DayOf(e, today), e.deleted)
  }

  lemma TwoUpserts(a: Entry, b: Entry, today: int)
    requires Trim(a.handle) == Trim(b.handle) != ""
    ensures AfterUpserts(map[], [a] + [b], today) ==
            map[Trim(a.handle) := Settled(Inserted(a, today),
                                          Entry(Trim(b.handle), b.nickname, DayOf(b, today), b.deleted))]
  {
    hide Trim, DayOf, Settled;
    assert ([a] + [b])[..1] == [a] && [a][..0] == [];
    assert AfterUpserts(map[], [a], today) == map[Trim(a.handle) := Inserted(a, today)];
  }

  /** A deleted entry that kept its name and a later live entry without one. */
  lemma ReviveDependsOnOrder()
    ensures var a, b := Entry("h", "x", 1, true), Entry("h", "", 2, false);
            && AfterUpserts(map[], [b] + [a], 9) == map["h" := Entry("h", "x", 2, false)]
            && AfterUpserts(map[], [a] + [b], 9) == map["h" := Entry("h", "", 2, false)]
  {
    var a, b := Entry("h", "x", 1, true), Entry("h", "", 2, false);
    TrimTrims("h");
    hide Trim;
    TwoUpserts(a, b, 9);
    TwoUpserts(b, a, 9);
  }

  /** The entries of one handle, in order. */
  function Own(list: seq<Entry>, h: string): seq<Entry> {
    if list == [] then []
    else
      var n := |list| - 1;
      if Trim(list[n].handle) == h then Own(list[..n], h) + [list[n]] else Own(list[..n], h)
  }

  lemma {:induction false} OwnEntry(list: seq<Entry>, h: string, e: Entry)
    requires e in Own(list, h)
    ensures e in list && Trim(e.handle) == h
  {
    hide Trim;
    if e in Own(list[..|list| - 1], h) { OwnEntry(list[..|list| - 1], h, e); }
  }

  lemma {:induction false} OwnConcat(a: seq<Entry>, b: seq<Entry>, h: string)
    ensures Own(a + b, h) == Own(a, h) + Own(b, h)
  {
    hide Trim;
    if b == [] {
      assert a + b == a;
    } else {
      var n := |b| - 1;
      OwnConcat(a, b[..n], h);
      assert (a + b)[..|a| + n] == a + b[..n];
    }
  }

  /** What a merge keeps of a handle is decided by the entries of that handle. */
  lemma {:induction false} OwnDecides(list: seq<Entry>, today: int, h: string)
    requires h != ""
    ensures var m, own := AfterUpserts(map[], list, today), AfterUpserts(map[], Own(list, h), today);
            (h in m <==> h in own) && (h in m ==> m[h] == own[h])
  {
    hide Trim, AfterUpsert;
    if list != [] {
      var n := |list| - 1;
      OwnDecides(list[..n], today, h);
      if Trim(list[n].handle) == h {
        assert Own(list, h)[..|Own(list, h)| - 1] == Own(list[..n], h);
      }
      UpsertAt(AfterUpserts(map[], list[..n], today), AfterUpserts(map[], Own(list[..n], h), today), list[n], today, h);
    }
  }

  /** One insertion changes the handle inserted, by what was there of it, and no other. */
  lemma UpsertAt(m: map<string, Entry>, own: map<string, Entry>, e: Entry, today: int, h: string)
    requires (h in m <==> h in own) && (h in m ==> m[h] == own[h]) && h != ""
    ensures var m', own' := AfterUpsert(m, e, today), if Trim(e.handle) == h then AfterUpsert(own, e, today) else own;
            (h in m' <==> h in own') && (h in m' ==> m'[h] == own'[h])
  {
    hide Trim, DayOf, Settled;
  }

  /** At most one entry per handle. */
  predicate OnePerHandle(list: seq<Entry>) {
    forall i, j | 0 <= i < j < |list| && Trim(list[i].handle) == Trim(list[j].handle) :: Trim(list[i].handle) == ""
  }

  ghost predicate SomeOrderMatters(a: seq<Entry>, b: seq<Entry>, today: int) {
    exists i, j :: 0 <= i < |a| && 0 <= j < |b| && PlaceMatters(a, i, b, j, today)
  }

  predicate PlaceMatters(a: seq<Entry>, i: nat, b: seq<Entry>, j: nat, today: int)
    requires i < |a| && j < |b|
  {
    Trim(a[i].handle) == Trim(b[j].handle) != "" && OrderMatters(a[i], b[j], today)
  }

  lemma {:induction false} OwnIsOne(list: seq<Entry>, h: string, i: nat)
    requires OnePerHandle(list) && i < |list| && Trim(list[i].handle) == h != ""
    ensures Own(list, h) == [list[i]]
  {
    hide Trim;
    var n := |list| - 1;
    if i < n {
      OwnIsOne(list[..n], h, i);
    } else if Own(list[..n], h) != [] {
      OwnEntry(list[..n], h, Own(list[..n], h)[0]);
      assert false;
    }
  }

  lemma {:induction false} UpsertsAreNamed(list: seq<Entry>, today: int)
    ensures "" !in AfterUpserts(map[], list, today)
  {
    if list != [] { UpsertsAreNamed(list[..|list| - 1], today); }
  }

  /** Main result: for lists with one entry per handle, it matters which is local exactly when the order matters for
      the two entries of some handle. */
  lemma LocalMattersIff(a: seq<Entry>, b: seq<Entry>, today: int)
    requires OnePerHandle(a) && OnePerHandle(b)
    ensures AfterUpserts(map[], b + a, today) == AfterUpserts(map[], a + b, today) <==> !SomeOrderMatters(a, b, today)
  {
    hide AfterUpserts, Trim, OrderMatters, Own, OnePerHandle;
    var ab, ba := AfterUpserts(map[], a + b, today), AfterUpserts(map[], b + a, today);
    if SomeOrderMatters(a, b, today) {
      var i, j :| 0 <= i < |a| && 0 <= j < |b| && PlaceMatters(a, i, b, j, today);
      HandleOrder(a, b, today, Trim(a[i].handle));
      OwnIsOne(a, Trim(a[i].handle), i);
      OwnIsOne(b, Trim(b[j].handle), j);
      PairOrderIff(a[i], b[j], today);
      PairKeys(a[i], b[j], today);
    } else {
      forall h ensures (h in ab <==> h in ba) && (h in ab ==> ab[h] == ba[h]) {
        if h == "" {
          UpsertsAreNamed(a + b, today);
          UpsertsAreNamed(b + a, today);
        } else {
          HandleOrder(a, b, today, h);
          OwnMergesAlike(a, b, today, h);
        }
      }
    }
  }

  lemma HandleOrder(a: seq<Entry>, b: seq<Entry>, today: int, h: string)
    requires h != ""
    ensures var m, own := AfterUpserts(map[], a + b, today), AfterUpserts(map[], Own(a, h) + Own(b, h), today);
            (h in m <==> h in own) && (h in m ==> m[h] == own[h])
    ensures var m, own := AfterUpserts(map[], b + a, today), AfterUpserts(map[], Own(b, h) + Own(a, h), today);
            (h in m <==> h in own) && (h in m ==> m[h] == own[h])
  {
    hide AfterUpserts, Own;
    OwnConcat(a, b, h);
    OwnConcat(b, a, h);
    OwnDecides(a + b, today, h);
    OwnDecides(b + a, today, h);
  }

  lemma PairKeys(a: Entry, b: Entry, today: int)
    requires Trim(a.handle) == Trim(b.handle) != ""
    ensures AfterUpserts(map[], [a] + [b], today).Keys == AfterUpserts(map[], [b] + [a], today).Keys == {Trim(a.handle)}
  {
    hide AfterUpserts, Trim;
    TwoUpserts(a, b, today);
    TwoUpserts(b, a, today);
  }

  lemma OwnMergesAlike(a: seq<Entry>, b: seq<Entry>, today: int, h: string)
    requires OnePerHandle(a) && OnePerHandle(b) && h != "" && !SomeOrderMatters(a, b, today)
    ensures AfterUpserts(map[], Own(a, h) + Own(b, h), today) == AfterUpserts(map[], Own(b, h) + Own(a, h), today)
  {
    hide AfterUpserts, Trim, OrderMatters, OnePerHandle;
    if Own(a, h) == [] || Own(b, h) == [] {
      assert Own(a, h) + Own(b, h) == Own(b, h) + Own(a, h);
    } else {
      OwnEntry(a, h, Own(a, h)[0]);
      OwnEntry(b, h, Own(b, h)[0]);
      var i :| 0 <= i < |a| && a[i] == Own(a, h)[0];
      var j :| 0 <= j < |b| && b[j] == Own(b, h)[0];
      OwnIsOne(a, h, i);
      OwnIsOne(b, h, j);
      assert !PlaceMatters(a, i, b, j, today);
      PairOrderIff(a[i], b[j], today);
    }
  }

  // ---------- the accumulator is a point of the lattice ----------

  /** Days and deletions are joined. */
  lemma UpsertJoins(m: map<string, Entry>, e: Entry, today: int)
    requires Keyed(m) && today > 0
    ensures Keyed(AfterUpsert(m, e, today))
    ensures MapView(AfterUpsert(m, e, today)) == Join(MapView(m), EntryView(e, today))
  {
    TrimTrims(e.handle);
    hide Trim, IsTrimmed, Join;
    var h, v := Trim(e.handle), MapView(m);
    if h == "" {
      JoinNothing(v);
    } else {
      JoinOne(v, h, StampOf(e, today));
      MapViewUpdate(m, h, AfterUpsert(m, e, today)[h]);
    }
  }

  /** Entry `i` names its handle: it is live and named, and every other entry of the handle is older, or of the same
      day, live, and earlier in the list or without a nickname. */
  predicate Names(list: seq<Entry>, i: nat, today: int)
    requires i < |list|
  {
    && Trim(list[i].handle) != "" && list[i].nickname != "" && !list[i].deleted
    && forall j | 0 <= j < |list| && j != i && Trim(list[j].handle) == Trim(list[i].handle) ::
         || DayOf(list[j], today) < DayOf(list[i], today)
         || (DayOf(list[j], today) == DayOf(list[i], today) && !list[j].deleted && (j < i || list[j].nickname == ""))
  }

  /** Main result on nicknames: such an entry is what the merge keeps of its handle. */
  lemma NamedByLatest(list: seq<Entry>, i: nat, today: int)
    requires i < |list| && Names(list, i, today)
    ensures var h, m := Trim(list[i].handle), AfterUpserts(map[], list, today);
            h in m && m[h] == Entry(h, list[i].nickname, DayOf(list[i], today), false)
  {
    NamedSoFar(list, i, today, |list|);
    assert list[..|list|] == list;
  }

  lemma {:induction false} NamedSoFar(list: seq<Entry>, i: nat, today: int, n: nat)
    requires i < |list| && Names(list, i, today) && n <= |list|
    ensures var h, m := Trim(list[i].handle), AfterUpserts(map[], list[..n], today);
            if n <= i then
              h in m ==> m[h].handle == h &&
                         (m[h].addedDay < DayOf(list[i], today) ||
                          (m[h].addedDay == DayOf(list[i], today) && !m[h].deleted))
            else h in m && m[h] == Entry(h, list[i].nickname, DayOf(list[i], today), false)
  {
    hide Trim, DayOf;
    if n > 0 {
      NamedSoFar(list, i, today, n - 1);
      assert list[..n][..n - 1] == list[..n - 1];
    }
  }

  ghost predicate Nicknamed(list: seq<Entry>, h: string, nickname: string) {
    exists i :: 0 <= i < |list| && Trim(list[i].handle) == h && list[i].nickname == nickname
  }

  /** No nickname is invented or moved to another handle. */
  lemma {:induction false} NicknameHasOrigin(list: seq<Entry>, today: int, h: string)
    ensures var m := AfterUpserts(map[], list, today);
            h in m && m[h].nickname != "" ==> Nicknamed(list, h, m[h].nickname)
  {
    hide Trim, DayOf;
    if list != [] {
      var n := |list| - 1;
      NicknameHasOrigin(list[..n], today, h);
      var before, after := AfterUpserts(map[], list[..n], today), AfterUpserts(map[], list, today);
      if h in after && after[h].nickname != "" {
        if h in before && after[h].nickname == before[h].nickname {
          var i :| 0 <= i < n && Trim(list[..n][i].handle) == h && list[..n][i].nickname == after[h].nickname;
          assert list[i] == list[..n][i];
        } else {
          assert Trim(list[n].handle) == h && list[n].nickname == after[h].nickname;
        }
      }
    }
  }

  method Upsert(byHandle: map<string, Entry>, entry: Entry, today: int) returns (r: map<string, Entry>)
    requires Keyed(byHandle) && today > 0
    ensures Keyed(r)
    ensures MapView(r) == Join(MapView(byHandle), EntryView(entry, today))
    ensures r == AfterUpsert(byHandle, entry, today)
  {
    UpsertJoins(byHandle, entry, today);
    var key := Trim(entry.handle);
    hide Trim, IsTrimmed, Join, MapView, EntryView;
    if key == "" {
      return byHandle;
    }
    if key !in byHandle {
      r := byHandle[key := Entry(key, if entry.deleted then "" else entry.nickname,
                                 if entry.addedDay != 0 then entry.addedDay else today, entry.deleted)];
      return;
    }
    var existing := byHandle[key];
    var existingDay := if existing.addedDay != 0 then existing.addedDay else today;
    var entryDay := if entry.addedDay != 0 then entry.addedDay else today;
    var isDeleted, addedDay, nickname;
    if entryDay > existingDay {
      isDeleted := entry.deleted;
      addedDay := entryDay;
      nickname := if isDeleted then "" else if entry.nickname != "" then entry.nickname else existing.nickname;
    } else if existingDay > entryDay {
      isDeleted := existing.deleted;
      addedDay := existingDay;
      nickname := if isDeleted then "" else if existing.nickname != "" then existing.nickname else entry.nickname;
    } else {
      isDeleted := existing.deleted || entry.deleted;
      addedDay := existingDay;
      nickname := if isDeleted then "" else if entry.nickname != "" then entry.nickname else existing.nickname;
    }
    r := byHandle[key := Entry(key, nickname, addedDay, isDeleted)];
  }

  lemma JoinNothing(v: View)
    ensures Join(v, map[]) == v
  {
  }

  /** Merges two lists. The output order, which the program takes from the locale, is left open. */
  method MergeContacts(local: seq<Entry>, remote: seq<Entry>, today: int) returns (out: seq<Entry>)
    requires today > 0
    ensures IsMerge(local, remote, today, out)
    ensures var m := AfterUpserts(map[], remote + local, today);
            && (forall h :: HasHandle(out, h) <==> h in m)
            && (forall i | 0 <= i < |out| :: out[i].handle in m && out[i] == m[out[i].handle])
  {
    hide AfterUpserts, HasHandle;
    UpsertsConcat(map[], remote, local, today);
    hide ViewOf, Join, EntryView, Keyed;
    var byHandle: map<string, Entry> := map[];
    EmptyAccumulator(today);
    byHandle := UpsertAll(byHandle, remote, today);
    byHandle := UpsertAll(byHandle, local, today);
    ghost var before := ViewOf(remote, today);
    JoinLaws(map[], before, before);
    JoinNothing(before);
    out := Values(byHandle, today);
  }

  lemma EmptyAccumulator(today: int)
    ensures Keyed(map[]) && MapView(map[]) == map[]
  {
  }

  method UpsertAll(byHandle: map<string, Entry>, list: seq<Entry>, today: int) returns (r: map<string, Entry>)
    requires Keyed(byHandle) && today > 0
    ensures Keyed(r)
    ensures MapView(r) == Join(MapView(byHandle), ViewOf(list, today))
    ensures r == AfterUpserts(byHandle, list, today)
  {
    r := byHandle;
    ghost var v := MapView(byHandle);
    JoinNothing(v);
    assert ViewOf(list[..0], today) == map[];
    hide ViewOf, Join, EntryView, Keyed, MapView, AfterUpsert;
    for i := 0 to |list|
      invariant Keyed(r) && MapView(r) == Join(v, ViewOf(list[..i], today))
      invariant r == AfterUpserts(byHandle, list[..i], today)
    {
      assert list[..i + 1] == list[..i] + [list[i]];
      ViewSnoc(list[..i], list[i], today);
      JoinLaws(v, ViewOf(list[..i], today), EntryView(list[i], today));
      r := Upsert(r, list[i], today);
    }
    assert list[..|list|] == list;
  }

  /** The values of the accumulator, each once. */
  method Values(byHandle: map<string, Entry>, ghost today: int) returns (out: seq<Entry>)
    requires Keyed(byHandle)
    ensures Canonical(out) && ViewOf(out, today) == MapView(byHandle)
    ensures forall i | 0 <= i < |out| :: out[i].handle in byHandle && out[i] == byHandle[out[i].handle]
    ensures forall h :: HasHandle(out, h) <==> h in byHandle
  {
    hide Trim, IsTrimmed, ViewOf, HasHandle, MapView;
    out := [];
    var rest := byHandle.Keys;
    while rest != {}
      invariant rest <= byHandle.Keys
      invariant Canonical(out)
      invariant forall i | 0 <= i < |out| ::
                  out[i].handle in byHandle && out[i].handle !in rest && out[i] == byHandle[out[i].handle]
      invariant forall h | h in byHandle :: h in rest || HasHandle(out, h)
      decreases rest
    {
      var h :| h in rest;
      forall k | k in byHandle && k !in rest - {h} ensures HasHandle(out + [byHandle[h]], k) {
        HasHandleSnoc(out, byHandle[h], k);
      }
      out := out + [byHandle[h]];
      rest := rest - {h};
    }
    ValuesView(byHandle, out, today);
    ValuesHandles(byHandle, out);
  }

  lemma ValuesHandles(byHandle: map<string, Entry>, out: seq<Entry>)
    requires forall i | 0 <= i < |out| :: out[i].handle in byHandle
    requires forall h | h in byHandle :: HasHandle(out, h)
    ensures forall h :: HasHandle(out, h) <==> h in byHandle
  {
  }

  lemma ValuesView(byHandle: map<string, Entry>, out: seq<Entry>, today: int)
    requires Canonical(out)
    requires forall i | 0 <= i < |out| :: out[i].handle in byHandle && out[i] == byHandle[out[i].handle]
    requires forall h | h in byHandle :: HasHandle(out, h)
    ensures ViewOf(out, today) == MapView(byHandle)
  {
    hide ViewOf;
    CanonicalView(out, today);
    forall h | h in byHandle || h in ViewOf(out, today)
      ensures h in MapView(byHandle) && h in ViewOf(out, today) && ViewOf(out, today)[h] == MapView(byHandle)[h]
    {
      assert HasHandle(out, h);
      var i :| 0 <= i < |out| && out[i].handle == h;
    }
  }
}
