/** Ranked de-duplication: of the active rows under one key only the first in a
    stated order stays active, so that a partial unique index can be built. */
module Deduplicate {
  import opened Common

  // ---- The order ----

  /** A sort value in descending order, with where its NULL goes. */
  datatype Sort = NullsLast | At(value: int) | NullsFirst

  predicate Above(a: Sort, b: Sort) {
    (a.NullsFirst? && !b.NullsFirst?) || (b.NullsLast? && !a.NullsLast?) || (a.At? && b.At? && a.value > b.value)
  }

  /** `DESC NULLS LAST` */
  function DescNullsLast(v: Option<int>): Sort {
    if v.Some? then At(v.value) else NullsLast
  }

  /** Plain `DESC`, which puts NULLs first. */
  function Desc(v: Option<int>): Sort {
    if v.Some? then At(v.value) else NullsFirst
  }

  /** An active row: what it is partitioned by, and its sort values before the id. */
  datatype Candidate = Candidate(key: int, first: Sort, second: Sort)

  type Candidates = map<int, Candidate>

  /** `a` comes before `b` in the order; ids make it total. */
  predicate Beats(c: Candidates, a: int, b: int)
    requires a in c && b in c
  {
    || Above(c[a].first, c[b].first)
    || (c[a].first == c[b].first && Above(c[a].second, c[b].second))
    || (c[a].first == c[b].first && c[a].second == c[b].second && a > b)
  }

  function Ahead(c: Candidates, id: int): set<int>
    requires id in c
  {
    set j | j in c && c[j].key == c[id].key && Beats(c, j, id)
  }

  /** `row_number() OVER (PARTITION BY key ORDER BY ...)` */
  function Position(c: Candidates, id: int): nat
    requires id in c
  {
    1 + |Ahead(c, id)|
  }

  function Losers(c: Candidates): set<int> {
    set id | id in c && Position(c, id) > 1
  }

  predicate Tops(c: Candidates, id: int) {
    id in c && forall j :: j in c && c[j].key == c[id].key && j != id ==> Beats(c, id, j)
  }

  lemma TopsIsNotLosing(c: Candidates, id: int)
    requires id in c
    ensures id !in Losers(c) <==> Tops(c, id)
  {
    if Tops(c, id) {
      assert forall j :: j in c && c[j].key == c[id].key && j != id ==> !Beats(c, j, id);
      assert Ahead(c, id) == {};
    } else {
      var j :| j in c && c[j].key == c[id].key && j != id && !Beats(c, id, j);
      assert j in Ahead(c, id);
    }
  }

  lemma {:induction false} TopExists(c: Candidates, ids: set<int>, some: int) returns (top: int)
    requires ids <= c.Keys && some in ids
    ensures top in ids && forall j :: j in ids && j != top ==> Beats(c, top, j)
    decreases ids
  {
    var rest := ids - {some};
    top := some;
    if rest != {} {
      var next := SomeElement(rest);
      var y := TopExists(c, rest, next);
      top := if Beats(c, some, y) then some else y;
      forall j | j in ids && j != top ensures Beats(c, top, j) {
        if j != some && j != y { assert j in rest && Beats(c, y, j); }
      }
    } else {
      assert forall j :: j in ids && j != some ==> j in rest;
    }
  }

  /** Under every key that has an active row exactly one row survives, and it is
      the first in the order. */
  lemma OneSurvivorPerKey(c: Candidates, id: int) returns (top: int)
    requires id in c
    ensures top in c && c[top].key == c[id].key && Tops(c, top) && top !in Losers(c)
    ensures forall j :: j in c && c[j].key == c[id].key && j !in Losers(c) ==> j == top
  {
    var ids := set j | j in c && c[j].key == c[id].key;
    top := TopExists(c, ids, id);
    assert Tops(c, top) by {
      assert forall j :: j in c && c[j].key == c[top].key ==> j in ids;
    }
    TopsIsNotLosing(c, top);
    forall j | j in c && c[j].key == c[id].key && j !in Losers(c) ensures j == top {
      TopsIsNotLosing(c, j);
    }
  }

  // ---- The three tables ----

  /** `owner` is the person_id before the repoint and the party_id after it. */
  datatype Login = Login(owner: int, active: bool, lastLogin: Option<int>, created: Option<int>)

  datatype Membership = Membership(owner: int, active: bool, guardian: Option<int>)

  datatype Status = Active | Cancelled | Other(name: string)

  datatype Mandate = Mandate(member: int, status: Status, isActive: bool, created: Option<int>,
                             cancelledAt: Option<int>, notes: Option<string>)

  function LoginCandidates(users: map<int, Login>): Candidates {
    map id | id in users && users[id].active ::
      Candidate(users[id].owner, DescNullsLast(users[id].lastLogin), Desc(users[id].created))
  }

  function MemberCandidates(members: map<int, Membership>): Candidates {
    map id | id in members && members[id].active :: Candidate(members[id].owner, At(0), At(0))
  }

  predicate Collectable(m: Mandate) {
    m.status == Active && m.isActive
  }

  function MandateCandidates(mandates: map<int, Mandate>): Candidates {
    map id | id in mandates && Collectable(mandates[id]) :: Candidate(mandates[id].member, Desc(mandates[id].created), At(0))
  }

  const CANCELLATION_NOTE := "Cancelled automatically: a member may hold only one active mandate, and a newer one existed."

  /** `COALESCE(notes || E'\n', '') || note`: what was written there stays. */
  function CancelledMandate(m: Mandate, now: int): Mandate {
    m.(status := Cancelled, cancelledAt := Some(now),
       notes := Some((if m.notes.Some? then m.notes.value + "\n" else "") + CANCELLATION_NOTE))
  }

  function DedupLogins(users: map<int, Login>): map<int, Login> {
    var losers := Losers(LoginCandidates(users));
    map id | id in users :: if id in losers then users[id].(active := false) else users[id]
  }

  function DedupMembers(members: map<int, Membership>): map<int, Membership> {
    var losers := Losers(MemberCandidates(members));
    map id | id in members :: if id in losers then members[id].(active := false) else members[id]
  }

  function DedupMandates(mandates: map<int, Mandate>, now: int): map<int, Mandate> {
    var losers := Losers(MandateCandidates(mandates));
    map id | id in mandates :: if id in losers then CancelledMandate(mandates[id], now) else mandates[id]
  }

  /** The candidates that are left when the losers stop being candidates. */
  ghost predicate Resolved(before: Candidates, after: Candidates) {
    && after.Keys == before.Keys - Losers(before)
    && forall id :: id in after ==> after[id] == before[id]
  }

  predicate OnePerKey(c: Candidates) {
    forall a, b :: a in c && b in c && c[a].key == c[b].key ==> a == b
  }

  /** What every one of the three updates achieves: at most one active row per
      key, still one wherever there was one, the first in the order; and doing it
      again changes nothing. */
  lemma ResolutionIsRight(before: Candidates, after: Candidates)
    requires Resolved(before, after)
    ensures OnePerKey(after)
    ensures forall id :: id in after ==> Tops(before, id)
    ensures forall id :: id in before ==> exists top :: top in after && after[top].key == before[id].key
    ensures Losers(after) == {}
  {
    forall a, b | a in after && b in after && after[a].key == after[b].key ensures a == b {
      var top := OneSurvivorPerKey(before, a);
    }
    forall id | id in after ensures Tops(before, id) { TopsIsNotLosing(before, id); }
    forall id | id in before ensures exists top :: top in after && after[top].key == before[id].key {
      var top := OneSurvivorPerKey(before, id);
    }
    forall id | id in after ensures Position(after, id) == 1 {
      assert Ahead(after, id) == {} by {
        assert forall j :: j in after && after[j].key == after[id].key ==> j == id;
      }
    }
  }

  lemma LoginsResolve(users: map<int, Login>)
    ensures Resolved(LoginCandidates(users), LoginCandidates(DedupLogins(users)))
    ensures DedupLogins(users).Keys == users.Keys
    ensures forall id :: id in users && !users[id].active ==> DedupLogins(users)[id] == users[id]
    ensures DedupLogins(DedupLogins(users)) == DedupLogins(users)
  {
    ResolutionIsRight(LoginCandidates(users), LoginCandidates(DedupLogins(users)));
  }

  lemma MembersResolve(members: map<int, Membership>)
    ensures Resolved(MemberCandidates(members), MemberCandidates(DedupMembers(members)))
    ensures DedupMembers(members).Keys == members.Keys
    ensures forall id :: id in members && !members[id].active ==> DedupMembers(members)[id] == members[id]
    ensures DedupMembers(DedupMembers(members)) == DedupMembers(members)
  {
    ResolutionIsRight(MemberCandidates(members), MemberCandidates(DedupMembers(members)));
  }

  lemma MandatesResolve(mandates: map<int, Mandate>, now: int, later: int)
    ensures Resolved(MandateCandidates(mandates), MandateCandidates(DedupMandates(mandates, now)))
    ensures DedupMandates(mandates, now).Keys == mandates.Keys
    ensures forall id :: id in mandates && !Collectable(mandates[id]) ==> DedupMandates(mandates, now)[id] == mandates[id]
    ensures DedupMandates(DedupMandates(mandates, now), later) == DedupMandates(mandates, now)
  {
    ResolutionIsRight(MandateCandidates(mandates), MandateCandidates(DedupMandates(mandates, now)));
  }

  // ---- The same, on the rows of each table ----

  /** `NULLS LAST` under DESC: any time is later than none. */
  predicate Later(a: Option<int>, b: Option<int>) {
    a.Some? && (b.None? || a.value > b.value)
  }

  /** NULLs first under DESC: no time at all counts as later. */
  predicate LaterOrUnknown(a: Option<int>, b: Option<int>) {
    b.Some? && (a.None? || a.value > b.value)
  }

  /** An active login that stays was used last; of equals created last; of equals
      it has the highest number. */
  lemma LoginThatStays(users: map<int, Login>, id: int, other: int)
    requires id in users && other in users && id != other && users[id].active && users[other].active
    requires users[id].owner == users[other].owner && DedupLogins(users)[id].active
    ensures var u, v := users[id], users[other];
      && !DedupLogins(users)[other].active
      && (Later(u.lastLogin, v.lastLogin)
          || (u.lastLogin == v.lastLogin && (LaterOrUnknown(u.created, v.created) || (u.created == v.created && id > other))))
  {
    var c := LoginCandidates(users);
    TopsIsNotLosing(c, id);
    TopsIsNotLosing(c, other);
    assert Beats(c, id, other);
  }

  /** A login is only ever deactivated, and every person who had an active one
      still has. */
  lemma LoginsKeepOne(users: map<int, Login>, id: int)
    requires id in users
    ensures DedupLogins(users)[id] == users[id].(active := DedupLogins(users)[id].active)
    ensures users[id].active ==> exists stays :: stays in users && users[stays].owner == users[id].owner && DedupLogins(users)[stays].active
  {
    if users[id].active {
      var top := OneSurvivorPerKey(LoginCandidates(users), id);
      assert top in users && DedupLogins(users)[top].active;
    }
  }

  /** Of memberships the newest stays. */
  lemma MemberThatStays(members: map<int, Membership>, id: int, other: int)
    requires id in members && other in members && id != other && members[id].active && members[other].active
    requires members[id].owner == members[other].owner && DedupMembers(members)[id].active
    ensures id > other && !DedupMembers(members)[other].active
  {
    var c := MemberCandidates(members);
    TopsIsNotLosing(c, id);
    TopsIsNotLosing(c, other);
    assert Beats(c, id, other);
  }

  lemma MembersKeepOne(members: map<int, Membership>, id: int)
    requires id in members
    ensures DedupMembers(members)[id] == members[id].(active := DedupMembers(members)[id].active)
    ensures members[id].active ==>
      exists stays :: stays in members && members[stays].owner == members[id].owner && DedupMembers(members)[stays].active
  {
    if members[id].active {
      var top := OneSurvivorPerKey(MemberCandidates(members), id);
      assert top in members && DedupMembers(members)[top].active;
    }
  }

  /** Of mandates the one created last stays; the others are cancelled, not
      deactivated, and keep what was noted on them. */
  lemma MandateThatStays(mandates: map<int, Mandate>, now: int, id: int, other: int)
    requires id in mandates && other in mandates && id != other && Collectable(mandates[id]) && Collectable(mandates[other])
    requires mandates[id].member == mandates[other].member && Collectable(DedupMandates(mandates, now)[id])
    ensures var m, gone := mandates[other], DedupMandates(mandates, now)[other];
      && (LaterOrUnknown(mandates[id].created, m.created) || (mandates[id].created == m.created && id > other))
      && gone.status == Cancelled && gone.isActive && gone.cancelledAt == Some(now) && gone.member == m.member
      && gone.notes.Some? && (m.notes.Some? ==> m.notes.value <= gone.notes.value)
  {
    var c := MandateCandidates(mandates);
    TopsIsNotLosing(c, id);
    TopsIsNotLosing(c, other);
    assert Beats(c, id, other);
  }

  lemma MandatesKeepOne(mandates: map<int, Mandate>, now: int, id: int)
    requires id in mandates && Collectable(mandates[id])
    ensures exists stays :: stays in mandates && mandates[stays].member == mandates[id].member
                            && mandates[stays] == DedupMandates(mandates, now)[stays]
                            && mandates[stays].status == Active && mandates[stays].isActive
  {
    var top := OneSurvivorPerKey(MandateCandidates(mandates), id);
    assert top in mandates && DedupMandates(mandates, now)[top] == mandates[top];
  }

  // ---- From persons to parties ----

  /** `persons.party_id`, by person id. */
  type Persons = map<int, int>

  predicate OnePersonPerParty(persons: Persons) {
    forall p, q :: p in persons && q in persons && persons[p] == persons[q] ==> p == q
  }

  function Remap(persons: Persons, owner: int): int {
    if owner in persons then persons[owner] else owner
  }

  function RemapLogins(persons: Persons, users: map<int, Login>): map<int, Login> {
    map id | id in users :: users[id].(owner := Remap(persons, users[id].owner))
  }

  function RemapMembers(persons: Persons, members: map<int, Membership>): map<int, Membership> {
    map id | id in members ::
      var m := members[id];
      m.(owner := Remap(persons, m.owner),
         guardian := if m.guardian.Some? then Some(Remap(persons, m.guardian.value)) else None)
  }

  /** The remap moves keys apart or together only as the parties do. */
  lemma RemapKeepsKeysApart(persons: Persons, before: Candidates, after: Candidates)
    requires OnePersonPerParty(persons) && OnePerKey(before) && after.Keys == before.Keys
    requires forall id :: id in before ==> before[id].key in persons && after[id].key == persons[before[id].key]
    ensures OnePerKey(after)
  {
    forall a, b | a in after && b in after && after[a].key == after[b].key ensures a == b {
      assert before[a].key == before[b].key;
    }
  }

  /** The downgrade's remap: the person whose party it is, while there is one. */
  function PersonOf(persons: Persons, party: int): int
    requires OnePersonPerParty(persons)
  {
    if p :| p in persons && persons[p] == party then p else party
  }

  /** The remap of a column runs before its key to persons is dropped; that key is
      not deferrable, so every new number must be a person's number as well.  A
      number that stays as it is passes, being a person's already. */
  predicate StaysAPerson(persons: Persons, owner: int) {
    Remap(persons, owner) in persons
  }

  predicate LoginsStay(persons: Persons, users: map<int, Login>) {
    forall id :: id in users ==> StaysAPerson(persons, users[id].owner)
  }

  predicate OwnersStay(persons: Persons, members: map<int, Membership>) {
    forall id :: id in members ==> StaysAPerson(persons, members[id].owner)
  }

  predicate GuardiansStay(persons: Persons, members: map<int, Membership>) {
    forall id :: id in members && members[id].guardian.Some? ==> StaysAPerson(persons, members[id].guardian.value)
  }

  predicate KeysStay(persons: Persons, members: map<int, Membership>) {
    OwnersStay(persons, members) && GuardiansStay(persons, members)
  }

  lemma RemappedLogins(persons: Persons, users: map<int, Login>)
    requires forall id :: id in users ==> users[id].owner in persons
    ensures var after := RemapLogins(persons, DedupLogins(users));
      && ((forall id :: id in after ==> after[id].owner in persons) <==> LoginsStay(persons, users))
      && (OnePersonPerParty(persons) ==> OnePerKey(LoginCandidates(after)))
  {
    var active := DedupLogins(users);
    var after := RemapLogins(persons, active);
    assert forall id :: id in users ==> after[id].owner == Remap(persons, users[id].owner);
    LoginsResolve(users);
    ResolutionIsRight(LoginCandidates(users), LoginCandidates(active));
    if OnePersonPerParty(persons) {
      RemapKeepsKeysApart(persons, LoginCandidates(active), LoginCandidates(after));
    }
  }

  lemma RemappedMembers(persons: Persons, members: map<int, Membership>)
    requires forall id :: id in members ==> members[id].owner in persons
    ensures var after := RemapMembers(persons, DedupMembers(members));
      && ((forall id :: id in after ==> after[id].owner in persons) <==> OwnersStay(persons, members))
      && (OnePersonPerParty(persons) ==> OnePerKey(MemberCandidates(after)))
  {
    var active := DedupMembers(members);
    var after := RemapMembers(persons, active);
    assert forall id :: id in members ==> after[id].owner == Remap(persons, members[id].owner);
    MembersResolve(members);
    ResolutionIsRight(MemberCandidates(members), MemberCandidates(active));
    if OnePersonPerParty(persons) {
      RemapKeepsKeysApart(persons, MemberCandidates(active), MemberCandidates(after));
    }
  }

  lemma RemappedGuardians(persons: Persons, members: map<int, Membership>)
    ensures var after := RemapMembers(persons, DedupMembers(members));
      GuardiansStay(persons, members) <==>
        forall id :: id in after && after[id].guardian.Some? ==> after[id].guardian.value in persons
  {
    var after := RemapMembers(persons, DedupMembers(members));
    assert forall id :: id in members && members[id].guardian.Some? ==>
      after[id].guardian == Some(Remap(persons, members[id].guardian.value));
  }

  class Identity {
    const persons: Persons
    var users: map<int, Login>
    var members: map<int, Membership>
    var mandates: map<int, Mandate>

    constructor (persons: Persons, users: map<int, Login>, members: map<int, Membership>, mandates: map<int, Mandate>)
      ensures this.persons == persons && this.users == users && this.members == members && this.mandates == mandates
    {
      this.persons, this.users, this.members, this.mandates := persons, users, members, mandates;
    }

    /** Deactivate, remap, index; in one transaction.  One person to a party, as
        the schema has it, keeps the unique index on active logins from failing;
        what can fail then is the key to persons, and exactly when some login's
        party number is not a person's number. */
    method UpgradeUsers() returns (ok: bool)
      requires forall id :: id in users ==> users[id].owner in persons
      modifies `users
      ensures ok <==> LoginsStay(persons, old(users)) && OnePerKey(LoginCandidates(RemapLogins(persons, DedupLogins(old(users)))))
      ensures OnePersonPerParty(persons) ==> (ok <==> LoginsStay(persons, old(users)))
      ensures users == if ok then RemapLogins(persons, DedupLogins(old(users))) else old(users)
    {
      var saved := users;
      RemappedLogins(persons, users);
      users := DedupLogins(users);
      users := RemapLogins(persons, users);
      ok := forall id :: id in users ==> users[id].owner in persons;
      if ok { ok := OnePerKey(LoginCandidates(users)); }
      if !ok { users := saved; }
    }

    /** The same for memberships, whose guardians are remapped under a key of
        their own after the index is built. */
    method UpgradeMembers() returns (ok: bool)
      requires forall id :: id in members ==> members[id].owner in persons
      modifies `members
      ensures ok <==> KeysStay(persons, old(members)) && OnePerKey(MemberCandidates(RemapMembers(persons, DedupMembers(old(members)))))
      ensures OnePersonPerParty(persons) ==> (ok <==> KeysStay(persons, old(members)))
      ensures members == if ok then RemapMembers(persons, DedupMembers(old(members))) else old(members)
    {
      var saved := members;
      RemappedMembers(persons, members);
      RemappedGuardians(persons, members);
      members := DedupMembers(members);
      members := RemapMembers(persons, members);
      ok := forall id :: id in members ==> members[id].owner in persons;
      if ok { ok := OnePerKey(MemberCandidates(members)); }
      if ok { ok := forall id :: id in members && members[id].guardian.Some? ==> members[id].guardian.value in persons; }
      if !ok { members := saved; }
    }

    /** Both blocks are one transaction. */
    method Upgrade() returns (ok: bool)
      requires forall id :: id in users ==> users[id].owner in persons
      requires forall id :: id in members ==> members[id].owner in persons
      modifies `users, `members
      ensures OnePersonPerParty(persons) ==> (ok <==> LoginsStay(persons, old(users)) && KeysStay(persons, old(members)))
      ensures users == if ok then RemapLogins(persons, DedupLogins(old(users))) else old(users)
      ensures members == if ok then RemapMembers(persons, DedupMembers(old(members))) else old(members)
    {
      var saved := users;
      ok := UpgradeUsers();
      if ok {
        ok := UpgradeMembers();
        if !ok { users := saved; }
      }
    }

    /** One active mandate per member: the index that follows cannot fail. */
    method CancelDuplicateMandates(now: int)
      modifies `mandates
      ensures mandates == DedupMandates(old(mandates), now)
      ensures OnePerKey(MandateCandidates(mandates))
    {
      MandatesResolve(mandates, now, now);
      ResolutionIsRight(MandateCandidates(mandates), MandateCandidates(DedupMandates(mandates, now)));
      mandates := DedupMandates(mandates, now);
    }
  }

  /** Straight from the release before parties, person and party numbers are equal:
      every remap changes nothing and no key can fail. */
  lemma EqualNumbersPass(persons: Persons, users: map<int, Login>, members: map<int, Membership>)
    requires forall p :: p in persons ==> persons[p] == p
    requires forall id :: id in users ==> users[id].owner in persons
    requires forall id :: id in members ==> members[id].owner in persons
    requires forall id :: id in members && members[id].guardian.Some? ==> members[id].guardian.value in persons
    ensures LoginsStay(persons, users) && RemapLogins(persons, users) == users
    ensures KeysStay(persons, members) && RemapMembers(persons, members) == members
  {
    assert forall p :: p in persons ==> Remap(persons, p) == p;
    forall id | id in users ensures RemapLogins(persons, users)[id] == users[id] {
      assert Remap(persons, users[id].owner) == users[id].owner;
    }
    assert RemapLogins(persons, users) == users;
    forall id | id in members ensures RemapMembers(persons, members)[id] == members[id] {
      var m := members[id];
      var r := RemapMembers(persons, members)[id];
      assert r.guardian == m.guardian && r.owner == m.owner && r.active == m.active;
    }
  }

  /** Once the two sequences have drifted apart: person 5 is party 6, and nobody is
      person 6. */
  lemma DriftedNumbersFail()
    ensures var persons: Persons := map[5 := 6];
      && OnePersonPerParty(persons)
      && !LoginsStay(persons, map[1 := Login(5, true, None, None)])
      && !OwnersStay(persons, map[1 := Membership(5, true, None)])
      && !ValuesStay(persons, map[1 := FieldValue(5, 1)])
  {
    var persons: Persons := map[5 := 6];
    var users := map[1 := Login(5, true, None, None)];
    var members := map[1 := Membership(5, true, None)];
    var values := map[1 := FieldValue(5, 1)];
    assert Remap(persons, 5) == 6;
    assert 1 in users && users[1].owner == 5 && 1 in members && members[1].owner == 5 && 1 in values && values[1].owner == 5;
  }

  /** The owner columns come back through the downgrade's remap. */
  lemma RemapIsUndone(persons: Persons, owner: int)
    requires OnePersonPerParty(persons) && owner in persons
    ensures PersonOf(persons, Remap(persons, owner)) == owner
  {
  }

  // ---- The custom field values, whose unique constraint stays in place ----

  datatype FieldValue = FieldValue(owner: int, definition: int)

  predicate Doubled(values: map<int, FieldValue>, a: int, b: int) {
    a in values && b in values && a != b && values[a] == values[b]
  }

  predicate NoDoubles(values: map<int, FieldValue>) {
    forall a, b :: a in values && b in values ==> !Doubled(values, a, b)
  }

  function RemapValue(persons: Persons, v: FieldValue): FieldValue {
    v.(owner := Remap(persons, v.owner))
  }

  /** The table when the UPDATE has got to the rows in `done`. */
  function Midway(persons: Persons, values: map<int, FieldValue>, done: set<int>): map<int, FieldValue> {
    map id | id in values :: if id in done then RemapValue(persons, values[id]) else values[id]
  }

  /** A constraint that is not deferrable is checked at every row. */
  ghost predicate NeverDoubles(persons: Persons, values: map<int, FieldValue>) {
    forall done :: done <= values.Keys ==> NoDoubles(Midway(persons, values, done))
  }

  /** One row's new owner is another row's old one, under the same definition. */
  predicate StepsOn(persons: Persons, values: map<int, FieldValue>, a: int, b: int) {
    && a in values && b in values && a != b
    && values[a].definition == values[b].definition && Remap(persons, values[a].owner) == values[b].owner
  }

  predicate ValuesStay(persons: Persons, values: map<int, FieldValue>) {
    forall id :: id in values ==> StaysAPerson(persons, values[id].owner)
  }

  /** The unique constraint is checked row by row, the key to persons when the
      UPDATE ends. */
  ghost predicate GoesThrough(persons: Persons, values: map<int, FieldValue>) {
    NeverDoubles(persons, values)
    && forall id :: id in values ==> Midway(persons, values, values.Keys)[id].owner in persons
  }

  /** The remap goes through, whatever order the rows are visited in, exactly when
      every owner's party number is a person's number, and none is, for the same
      field, the number of another value's owner. */
  lemma ValuesRemapSafelyIff(persons: Persons, values: map<int, FieldValue>)
    requires OnePersonPerParty(persons) && NoDoubles(values)
    requires forall id :: id in values ==> values[id].owner in persons
    ensures GoesThrough(persons, values)
       <==> ValuesStay(persons, values) && forall a, b :: a in values && b in values ==> !StepsOn(persons, values, a, b)
  {
    assert forall id :: id in values ==> Midway(persons, values, values.Keys)[id].owner == Remap(persons, values[id].owner);
    NeverDoublesIff(persons, values);
  }

  lemma NeverDoublesIff(persons: Persons, values: map<int, FieldValue>)
    requires OnePersonPerParty(persons) && NoDoubles(values)
    requires forall id :: id in values ==> values[id].owner in persons
    ensures NeverDoubles(persons, values) <==> forall a, b :: a in values && b in values ==> !StepsOn(persons, values, a, b)
  {
    if a, b :| a in values && b in values && StepsOn(persons, values, a, b) {
      assert Doubled(Midway(persons, values, {a}), a, b);
      assert {a} <= values.Keys;
    } else {
      forall done, a, b | done <= values.Keys && a in values && b in values
        ensures !Doubled(Midway(persons, values, done), a, b)
      {
        assert !StepsOn(persons, values, a, b) && !StepsOn(persons, values, b, a) && !Doubled(values, a, b);
      }
    }
  }
}
