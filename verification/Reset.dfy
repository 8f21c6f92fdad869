/** The club-data reset: one DELETE per table, children first, sparing the
    operator's rows.  A DELETE is modelled with the ON DELETE actions of the
    foreign keys that point at the table, so that "nothing needs CASCADE" and
    "no plain DELETE trips a foreign key" are things to prove. */
module Reset {

  // ---- Schema ----

  datatype Table =
    | Users | Persons | Party | UserRoles | UserIdentities | Roles
    | RolePermissions | ContactChannels | ContactTypes | PartyKinds | PaymentProviders
    | Club(name: string)

  const CLUB_TABLES: set<string> := {
    "activities", "activity_attachment_types", "activity_consents",
    "activity_modalities", "activity_prices", "addresses",
    "announcement_recipients", "announcements", "audit_logs", "bank_accounts",
    "billing_runs", "bookings", "concepts", "contacts",
    "custom_field_definitions", "custom_field_values", "discount_codes",
    "groups", "invoice_sequences", "mail_transport_health", "members",
    "membership_types", "notifications", "organization_settings",
    "receipt_reminders", "receipts", "registration_attachments",
    "registration_consents", "registrations", "reminders",
    "remittance_receipts", "remittance_sequences", "remittances",
    "sepa_mandates", "spaces", "space_slots", "webhook_events"
  }

  predicate Known(t: Table) {
    t.Club? ==> t.name in CLUB_TABLES
  }

  predicate Preserved(t: Table) {
    t.ContactChannels? || t.ContactTypes? || t.PartyKinds? || t.PaymentProviders? || t.RolePermissions?
  }

  datatype Column = UserId | PartyId | RoleId | AssignedBy | Kind | Channel | Other(name: string)

  datatype Action = Cascade | SetNull | Restrict | NoAction

  datatype Edge = Edge(child: Table, column: Column, parent: Table, onDelete: Action)

  /** Every foreign key held by a table that keeps rows through a reset.  The
      foreign keys of the club tables are left arbitrary. */
  const KEPT_EDGES: set<Edge> := {
    Edge(Users, PartyId, Party, Cascade),
    Edge(Persons, PartyId, Party, Cascade),
    Edge(Party, Kind, PartyKinds, NoAction),
    Edge(UserRoles, UserId, Users, Cascade),
    Edge(UserRoles, RoleId, Roles, Restrict),
    Edge(UserRoles, AssignedBy, Users, SetNull),
    Edge(UserIdentities, UserId, Users, Cascade),
    Edge(RolePermissions, RoleId, Roles, Cascade),
    Edge(ContactTypes, Channel, ContactChannels, NoAction)
  }

  /** `sorted` is the metadata's table list, parents first. */
  datatype Schema = Schema(sorted: seq<Table>, edges: set<Edge>)

  predicate ParentFirst(s: Schema, e: Edge, parent: nat, child: nat) {
    (child < |s.sorted| && parent < |s.sorted| && e.child != e.parent
     && s.sorted[child] == e.child && s.sorted[parent] == e.parent) ==> parent < child
  }

  ghost predicate WellFormed(s: Schema) {
    && (forall i, j :: 0 <= i < j < |s.sorted| ==> s.sorted[i] != s.sorted[j])
    && (forall e, i: nat, j: nat {:trigger ParentFirst(s, e, i, j)} :: e in s.edges ==> ParentFirst(s, e, i, j))
    && KEPT_EDGES <= s.edges
    && (forall e :: e in s.edges && !e.child.Club? ==> e in KEPT_EDGES)
  }

  predicate Classified(s: Schema) {
    forall t :: t in s.sorted ==> Known(t)
  }

  // ---- Database and the DELETE statement ----

  datatype RowId = RowId(table: Table, id: int)

  /** A column that is absent from `refs` is NULL. */
  datatype Row = Row(refs: map<Column, int>, slug: string, isSystem: bool)

  type Db = map<RowId, Row>

  predicate PointsInto(e: Edge, r: RowId, row: Row, targets: set<RowId>) {
    e.child == r.table && e.column in row.refs && RowId(e.parent, row.refs[e.column]) in targets
  }

  predicate Resolves(db: Db, r: RowId, e: Edge) {
    r in db && e.child == r.table && e.column in db[r].refs ==> RowId(e.parent, db[r].refs[e.column]) in db
  }

  /** No dangling reference anywhere. */
  ghost predicate Consistent(s: Schema, db: Db) {
    forall r, e {:trigger Resolves(db, r, e)} :: e in s.edges ==> Resolves(db, r, e)
  }

  predicate CascadesInto(s: Schema, r: RowId, row: Row, targets: set<RowId>) {
    exists e :: e in s.edges && e.onDelete == Cascade && PointsInto(e, r, row, targets)
  }

  /** The rows a DELETE of `doomed` removes once every cascade has run. */
  function Doomed(s: Schema, db: Db, doomed: set<RowId>): (all: set<RowId>)
    requires doomed <= db.Keys
    ensures doomed <= all <= db.Keys
    ensures forall r :: r in db && CascadesInto(s, r, db[r], all) ==> r in all
    decreases |db.Keys - doomed|
  {
    var more := set r | r in db && r !in doomed && CascadesInto(s, r, db[r], doomed);
    if more == {} then
      assert forall r :: r in db && r !in doomed && CascadesInto(s, r, db[r], doomed) ==> r in more;
      doomed
    else
      assert db.Keys - (doomed + more) < db.Keys - doomed by {
        var r :| r in more;
        assert r in db.Keys - doomed && r !in db.Keys - (doomed + more);
      }
      Shrinks(db.Keys - (doomed + more), db.Keys - doomed);
      Doomed(s, db, doomed + more)
  }

  lemma Shrinks<T>(a: set<T>, b: set<T>)
    requires a < b
    ensures |a| < |b|
  {
    var x :| x in b && x !in a;
    assert a <= b - {x};
    SubsetSize(a, b - {x});
  }

  lemma {:induction false} SubsetSize<T>(a: set<T>, b: set<T>)
    requires a <= b
    ensures |a| <= |b|
  {
    if a != {} {
      var x :| x in a;
      SubsetSize(a - {x}, b - {x});
    }
  }

  /** RESTRICT is violated by a row outside the statement's own target, NO
      ACTION by a row that is still there when the statement ends. */
  predicate Blocked(s: Schema, db: Db, target: set<RowId>, doomed: set<RowId>) {
    exists r, e :: r in db && e in s.edges && PointsInto(e, r, db[r], doomed)
      && ((e.onDelete == Restrict && r !in target) || (e.onDelete == NoAction && r !in doomed))
  }

  function Nulled(s: Schema, r: RowId, row: Row, doomed: set<RowId>): Row {
    row.(refs := map c | c in row.refs
                      && !(exists e :: e in s.edges && e.column == c && e.onDelete == SetNull
                             && PointsInto(e, r, row, doomed)) :: row.refs[c])
  }

  datatype Error = UnknownTables | ForeignKeyViolation(at: Table)

  datatype Result<+T> = Ok(value: T) | Err(error: Error)

  function Delete(s: Schema, db: Db, t: Table, target: set<RowId>): (res: Result<Db>)
    requires target <= db.Keys
  {
    var doomed := Doomed(s, db, target);
    if Blocked(s, db, target, doomed) then
      Err(ForeignKeyViolation(t))
    else
      Ok(map r | r in db && r !in doomed :: Nulled(s, r, db[r], doomed))
  }

  /** A statement that goes through never leaves a dangling reference, whatever
      it deletes. */
  lemma DeleteKeepsConsistent(s: Schema, db: Db, t: Table, target: set<RowId>)
    requires target <= db.Keys && Consistent(s, db)
    ensures Delete(s, db, t, target).Ok? ==> Consistent(s, Delete(s, db, t, target).value)
  {
    var doomed := Doomed(s, db, target);
    if !Blocked(s, db, target, doomed) {
      var after := Delete(s, db, t, target).value;
      forall r, e | e in s.edges
        ensures Resolves(after, r, e)
      {
        if r in after {
          var row := db[r];
          assert Resolves(db, r, e);
          assert after[r] == Nulled(s, r, row, doomed);
          assert e.onDelete == Cascade && PointsInto(e, r, row, doomed) ==> CascadesInto(s, r, row, doomed);
        }
      }
    }
  }

  // ---- What a reset spares ----

  const SUPER_ADMIN := "super_admin"

  /** The columns the reset's SQL reads are NOT NULL in the schema. */
  ghost predicate ColumnsPresent(db: Db) {
    forall r :: r in db ==>
      && (r.table.Users? || r.table.Persons? ==> PartyId in db[r].refs)
      && (r.table.UserRoles? || r.table.UserIdentities? ==> UserId in db[r].refs)
      && (r.table.UserRoles? || r.table.RolePermissions? ==> RoleId in db[r].refs)
  }

  predicate GrantsSuperAdmin(db: Db, r: RowId)
    requires r in db
  {
    && r.table.UserRoles? && UserId in db[r].refs && RoleId in db[r].refs
    && RowId(Users, db[r].refs[UserId]) in db
    && RowId(Roles, db[r].refs[RoleId]) in db
    && db[RowId(Roles, db[r].refs[RoleId])].slug == SUPER_ADMIN
  }

  /** The user and party ids that outlive a reset. */
  datatype Spare = Spare(users: set<int>, parties: set<int>)

  function PreservedUsers(db: Db): set<int> {
    set r | r in db && GrantsSuperAdmin(db, r) :: db[r].refs[UserId]
  }

  function PreservedParties(db: Db): set<int> {
    set r | r in db && r.table.Users? && r.id in PreservedUsers(db) && PartyId in db[r].refs
      :: db[r].refs[PartyId]
  }

  function PreservedIds(db: Db): Spare {
    Spare(PreservedUsers(db), PreservedParties(db))
  }

  /** The party behind a preserved user is preserved too. */
  ghost predicate Coherent(db: Db, k: Spare) {
    forall r :: r in db && r.table.Users? && r.id in k.users && PartyId in db[r].refs ==> db[r].refs[PartyId] in k.parties
  }

  datatype Clause =
    | Everything
    | IdNotIn(ids: set<int>)
    | RefNotIn(column: Column, ids: set<int>)
    | NotSystem

  function Where(t: Table, k: Spare): Clause {
    match t
    case Users => if k.users == {} then Everything else IdNotIn(k.users)
    case Persons => if k.parties == {} then Everything else RefNotIn(PartyId, k.parties)
    case Party => if k.parties == {} then Everything else IdNotIn(k.parties)
    case UserRoles => if k.users == {} then Everything else RefNotIn(UserId, k.users)
    case UserIdentities => if k.users == {} then Everything else RefNotIn(UserId, k.users)
    case Roles => NotSystem
    case _ => Everything
  }

  predicate Selects(c: Clause, r: RowId, row: Row) {
    match c
    case Everything => true
    case IdNotIn(ids) => r.id !in ids
    case RefNotIn(column, ids) => column in row.refs && row.refs[column] !in ids
    case NotSystem => !row.isSystem
  }

  function Target(db: Db, t: Table, c: Clause): (rows: set<RowId>)
    ensures rows <= db.Keys
  {
    set r | r in db && r.table == t && Selects(c, r, db[r])
  }

  /** The rows of `t` the reset is there to remove, read off the database it
      starts from. */
  function Cleared(db: Db, k: Spare, t: Table): set<RowId> {
    Target(db, t, Where(t, k))
  }

  /** The report that is due once the tables from index `i` on are done. */
  function CountsFrom(s: Schema, db: Db, k: Spare, i: nat): map<Table, nat>
    requires i <= |s.sorted|
    decreases |s.sorted| - i
  {
    if i == |s.sorted| then map[]
    else
      var t := s.sorted[i];
      var rest := CountsFrom(s, db, k, i + 1);
      if Preserved(t) || |Cleared(db, k, t)| == 0 then rest else rest[t := |Cleared(db, k, t)|]
  }

  function Counts(s: Schema, db: Db, k: Spare): map<Table, nat> {
    CountsFrom(s, db, k, 0)
  }

  /** The report names exactly the tables that lose rows, each with the number
      of rows it loses. */
  lemma {:induction false} CountsFromMean(s: Schema, db: Db, k: Spare, i: nat, t: Table)
    requires i <= |s.sorted|
    ensures t in CountsFrom(s, db, k, i) <==> t in s.sorted[i..] && !Preserved(t) && Cleared(db, k, t) != {}
    ensures t in CountsFrom(s, db, k, i) ==> CountsFrom(s, db, k, i)[t] == |Cleared(db, k, t)|
    decreases |s.sorted| - i
  {
    if i < |s.sorted| {
      assert s.sorted[i..] == [s.sorted[i]] + s.sorted[i + 1..];
      CountsFromMean(s, db, k, i + 1, t);
    }
  }

  /** What outlives a reset when these users and parties are preserved, stated
      row by row. */
  predicate Spared(r: RowId, row: Row, k: Spare) {
    match r.table
    case Users => r.id in k.users
    case Persons => PartyId in row.refs && row.refs[PartyId] in k.parties
    case Party => r.id in k.parties
    case UserRoles => UserId in row.refs && row.refs[UserId] in k.users
    case UserIdentities => UserId in row.refs && row.refs[UserId] in k.users
    case Roles => row.isSystem
    case Club(_) => false
    case _ => true
  }

  /** Grants of a system role survive, grants of a custom role do not; every
      other row survives when it is spared. */
  predicate Survives(db: Db, k: Spare, r: RowId)
    requires r in db
  {
    if r.table.RolePermissions? then
      RoleId in db[r].refs && RowId(Roles, db[r].refs[RoleId]) in db && db[RowId(Roles, db[r].refs[RoleId])].isSystem
    else
      Spared(r, db[r], k)
  }

  /** A surviving assignment forgets who made it when that user is gone. */
  ghost function Kept(k: Spare, r: RowId, row: Row): Row {
    if r.table.UserRoles? && AssignedBy in row.refs && row.refs[AssignedBy] !in k.users then
      row.(refs := row.refs - {AssignedBy})
    else
      row
  }

  ghost function Survivors(db: Db, k: Spare): Db {
    map r | r in db && Survives(db, k, r) :: Kept(k, r, db[r])
  }

  ghost predicate SuperAdminsHoldSystemRoles(db: Db, k: Spare) {
    forall r :: r in db && r.table.UserRoles? && UserId in db[r].refs && RoleId in db[r].refs
      && db[r].refs[UserId] in k.users && RowId(Roles, db[r].refs[RoleId]) in db
      ==> db[RowId(Roles, db[r].refs[RoleId])].isSystem
  }

  ghost predicate Valid(s: Schema, db: Db) {
    && WellFormed(s)
    && Consistent(s, db)
    && ColumnsPresent(db)
    && (forall r :: r in db ==> r.table in s.sorted)
  }

  /** Dropping the clause when there is nobody to spare clears exactly what
      `NOT IN ()` would have meant. */
  lemma WhereSpares(r: RowId, row: Row, k: Spare)
    requires !Preserved(r.table)
    requires r.table.Persons? ==> PartyId in row.refs
    requires r.table.UserRoles? || r.table.UserIdentities? ==> UserId in row.refs
    ensures Selects(Where(r.table, k), r, row) <==> !Spared(r, row, k)
  {
    match r.table
    case Users => case Persons => case Party => case UserRoles =>
    case UserIdentities => case Roles => case Club(_) =>
    case _ =>
  }

  lemma ClearedRow(db: Db, k: Spare, t: Table, r: RowId)
    requires ColumnsPresent(db) && !Preserved(t) && r in db && r.table == t
    ensures r in Cleared(db, k, t) <==> !Survives(db, k, r)
  {
    WhereSpares(r, db[r], k);
  }

  // ---- The state after the tables from index `i` on have been cleared ----

  ghost function Done(s: Schema, i: nat): set<Table> {
    set j | i <= j < |s.sorted| && !Preserved(s.sorted[j]) :: s.sorted[j]
  }

  ghost predicate Reached(done: set<Table>, r: RowId) {
    r.table in done || (r.table.RolePermissions? && Roles in done)
  }

  ghost function Stage(db: Db, k: Spare, done: set<Table>): Db {
    map r | r in db && (Reached(done, r) ==> Survives(db, k, r)) :: if Users in done then Kept(k, r, db[r]) else db[r]
  }

  /** What the DELETE on `t` removes: its own condemned rows and, for `roles`
      alone, the grants that go with them. */
  ghost function Gone(db: Db, k: Spare, t: Table): set<RowId> {
    set r | r in db && !Survives(db, k, r) && (r.table == t || (t.Roles? && r.table.RolePermissions?))
  }

  lemma ChildIsDone(s: Schema, i: nat, e: Edge)
    requires WellFormed(s) && i < |s.sorted| && e in s.edges && e.child in s.sorted && !Preserved(e.child)
    requires e.parent == s.sorted[i] || (s.sorted[i].Roles? && e.parent.RolePermissions? && RolePermissions in s.sorted)
    ensures e.child == s.sorted[i] || e.child in Done(s, i + 1)
  {
    var j :| 0 <= j < |s.sorted| && s.sorted[j] == e.child;
    if e.parent != s.sorted[i] {
      var k :| 0 <= k < |s.sorted| && s.sorted[k] == RolePermissions;
      var grant := Edge(RolePermissions, RoleId, Roles, Cascade);
      assert grant in s.edges && ParentFirst(s, grant, i, k);
      assert ParentFirst(s, e, k, j);
    } else {
      assert ParentFirst(s, e, i, j);
    }
  }

  lemma StageRow(db: Db, k: Spare, done: set<Table>, r: RowId, e: Edge, targets: set<RowId>)
    requires r in Stage(db, k, done) && PointsInto(e, r, Stage(db, k, done)[r], targets)
    ensures r in db && PointsInto(e, r, db[r], targets) && (r.table in done ==> Survives(db, k, r))
  {
  }

  lemma GoneRow(db: Db, k: Spare, t: Table, r: RowId)
    requires r in Gone(db, k, t)
    ensures r in db && !Survives(db, k, r) && (r.table == t || (t.Roles? && r.table.RolePermissions?))
  {
  }

  lemma KeptRowKeepsItsParents(db: Db, k: Spare, t: Table, r: RowId, e: Edge)
    requires ColumnsPresent(db) && Coherent(db, k) && !Preserved(t) && r in db && e in KEPT_EDGES
    requires !Preserved(r.table) ==> Survives(db, k, r)
    requires r !in Gone(db, k, t) && PointsInto(e, r, db[r], Gone(db, k, t))
    ensures e == Edge(UserRoles, AssignedBy, Users, SetNull)
         || (e == Edge(UserRoles, RoleId, Roles, Restrict) && !SuperAdminsHoldSystemRoles(db, k))
  {
    var row := db[r];
    var hit := RowId(e.parent, row.refs[e.column]);
    GoneRow(db, k, t, hit);
    assert t.Roles? && r.table.RolePermissions? && !Survives(db, k, r) ==> r in Gone(db, k, t);
  }

  /** While `sorted[i]` is being cleared, only two foreign keys lead from a row
      that stays to a row that goes: who made an assignment, and a custom role
      held by a super admin. */
  lemma OnlyTwoKeysReachIn(s: Schema, db: Db, k: Spare, i: nat, r: RowId, e: Edge)
    requires Valid(s, db) && Coherent(db, k) && i < |s.sorted| && !Preserved(s.sorted[i])
    requires r in Stage(db, k, Done(s, i + 1)) && r !in Gone(db, k, s.sorted[i]) && e in s.edges
    requires PointsInto(e, r, Stage(db, k, Done(s, i + 1))[r], Gone(db, k, s.sorted[i]))
    ensures e == Edge(UserRoles, AssignedBy, Users, SetNull)
         || (e == Edge(UserRoles, RoleId, Roles, Restrict) && !SuperAdminsHoldSystemRoles(db, k))
  {
    StageRow(db, k, Done(s, i + 1), r, e, Gone(db, k, s.sorted[i]));
    var hit := RowId(e.parent, db[r].refs[e.column]);
    assert hit.table in s.sorted;
    if !Preserved(e.child) {
      ChildIsDone(s, i, e);
      assert Survives(db, k, r);
    }
    assert !e.child.Club?;
    KeptRowKeepsItsParents(db, k, s.sorted[i], r, e);
  }

  lemma ClosedUnderCascade(s: Schema, db: Db, target: set<RowId>)
    requires target <= db.Keys
    requires forall r :: r in db && CascadesInto(s, r, db[r], target) ==> r in target
    ensures Doomed(s, db, target) == target
  {
    assert (set r | r in db && r !in target && CascadesInto(s, r, db[r], target)) == {};
  }

  lemma OneCascade(s: Schema, db: Db, target: set<RowId>, more: set<RowId>)
    requires target <= db.Keys && more <= db.Keys && target !! more
    requires forall r :: r in more ==> CascadesInto(s, r, db[r], target)
    requires forall r :: r in db && CascadesInto(s, r, db[r], target + more) ==> r in target + more
    ensures Doomed(s, db, target) == target + more
  {
    var round := set r | r in db && r !in target && CascadesInto(s, r, db[r], target);
    forall r | r in round ensures r in more {
      var e :| e in s.edges && e.onDelete == Cascade && PointsInto(e, r, db[r], target);
      assert PointsInto(e, r, db[r], target + more);
      assert CascadesInto(s, r, db[r], target + more);
    }
    assert round == more;
    ClosedUnderCascade(s, db, target + more);
  }

  lemma StagedRow(db: Db, k: Spare, done: set<Table>, r: RowId)
    ensures r in Stage(db, k, done) <==> r in db && (Reached(done, r) ==> Survives(db, k, r))
    ensures r in Stage(db, k, done) ==> Stage(db, k, done)[r] == if Users in done then Kept(k, r, db[r]) else db[r]
  {
  }

  lemma ClauseIgnoresAssignedBy(c: Clause, r: RowId, k: Spare, row: Row)
    requires c.RefNotIn? ==> c.column != AssignedBy
    ensures Selects(c, r, Kept(k, r, row)) == Selects(c, r, row)
  {
  }

  /** Rows not yet reached are still there for the statement to select. */
  lemma StageTarget(db: Db, k: Spare, t: Table, done: set<Table>, c: Clause)
    requires t !in done && !t.RolePermissions? && (c.RefNotIn? ==> c.column != AssignedBy)
    ensures Target(Stage(db, k, done), t, c) == Target(db, t, c)
  {
    forall r: RowId | r.table == t
      ensures r in Target(Stage(db, k, done), t, c) <==> r in Target(db, t, c)
    {
      StagedRow(db, k, done, r);
      if r in db { ClauseIgnoresAssignedBy(c, r, k, db[r]); }
    }
  }

  lemma GoneIsStaged(s: Schema, db: Db, k: Spare, i: nat)
    requires Valid(s, db) && Coherent(db, k) && i < |s.sorted| && !Preserved(s.sorted[i])
    ensures Gone(db, k, s.sorted[i]) <= Stage(db, k, Done(s, i + 1)).Keys
    ensures Cleared(db, k, s.sorted[i]) <= Gone(db, k, s.sorted[i])
    ensures forall r :: r in Gone(db, k, s.sorted[i]) && r !in Cleared(db, k, s.sorted[i]) ==>
      r.table.RolePermissions? && CascadesInto(s, r, Stage(db, k, Done(s, i + 1))[r], Cleared(db, k, s.sorted[i]))
  {
    var t := s.sorted[i];
    assert t !in Done(s, i + 1);
    forall r | r in Gone(db, k, t)
      ensures r in Stage(db, k, Done(s, i + 1)).Keys
      ensures r !in Cleared(db, k, t) ==>
        r.table.RolePermissions? && CascadesInto(s, r, Stage(db, k, Done(s, i + 1))[r], Cleared(db, k, t))
    {
      GoneRow(db, k, t, r);
      if r.table == t {
        ClearedRow(db, k, t, r);
      } else {
        var e := Edge(RolePermissions, RoleId, Roles, Cascade);
        assert e in s.edges && Resolves(db, r, e);
        var role := RowId(Roles, db[r].refs[RoleId]);
        ClearedRow(db, k, t, role);
        assert Stage(db, k, Done(s, i + 1))[r].refs == db[r].refs;
        assert PointsInto(e, r, Stage(db, k, Done(s, i + 1))[r], Cleared(db, k, t));
      }
    }
    forall r | r in Cleared(db, k, t) ensures r in Gone(db, k, t) {
      ClearedRow(db, k, t, r);
    }
  }

  lemma GoneIsClosed(s: Schema, db: Db, k: Spare, i: nat)
    requires Valid(s, db) && Coherent(db, k) && i < |s.sorted| && !Preserved(s.sorted[i])
    ensures var stage := Stage(db, k, Done(s, i + 1));
      forall r :: r in stage && CascadesInto(s, r, stage[r], Gone(db, k, s.sorted[i])) ==> r in Gone(db, k, s.sorted[i])
  {
    var stage := Stage(db, k, Done(s, i + 1));
    var gone := Gone(db, k, s.sorted[i]);
    forall r, e | r in stage && r !in gone && e in s.edges && PointsInto(e, r, stage[r], gone)
      ensures e.onDelete != Cascade
    {
      OnlyTwoKeysReachIn(s, db, k, i, r, e);
    }
  }

  /** No DELETE of the run removes a row of another table, save that deleting
      the custom roles takes their grants. */
  lemma NothingElseIsDoomed(s: Schema, db: Db, k: Spare, i: nat)
    requires Valid(s, db) && Coherent(db, k) && i < |s.sorted| && !Preserved(s.sorted[i])
    requires Cleared(db, k, s.sorted[i]) <= Stage(db, k, Done(s, i + 1)).Keys
    ensures Doomed(s, Stage(db, k, Done(s, i + 1)), Cleared(db, k, s.sorted[i])) == Gone(db, k, s.sorted[i])
  {
    var t := s.sorted[i];
    var stage := Stage(db, k, Done(s, i + 1));
    var target := Cleared(db, k, t);
    GoneIsStaged(s, db, k, i);
    var more := Gone(db, k, t) - target;
    assert target + more == Gone(db, k, t);
    GoneIsClosed(s, db, k, i);
    OneCascade(s, stage, target, more);
  }

  lemma NotBlocked(s: Schema, db: Db, k: Spare, i: nat)
    requires Valid(s, db) && Coherent(db, k) && i < |s.sorted| && !Preserved(s.sorted[i])
    requires s.sorted[i].Roles? ==> SuperAdminsHoldSystemRoles(db, k)
    ensures !Blocked(s, Stage(db, k, Done(s, i + 1)), Cleared(db, k, s.sorted[i]), Gone(db, k, s.sorted[i]))
  {
    var t := s.sorted[i];
    var stage := Stage(db, k, Done(s, i + 1));
    forall r, e | r in stage && e in s.edges && PointsInto(e, r, stage[r], Gone(db, k, t))
      ensures !(e.onDelete == Restrict && r !in Cleared(db, k, t)) && !(e.onDelete == NoAction && r !in Gone(db, k, t))
    {
      GoneRow(db, k, t, RowId(e.parent, stage[r].refs[e.column]));
      if r !in Gone(db, k, t) {
        OnlyTwoKeysReachIn(s, db, k, i, r, e);
      } else if r !in Cleared(db, k, t) {
        GoneIsStaged(s, db, k, i);
        assert e in KEPT_EDGES;
      }
    }
  }

  lemma CustomRoleBlocks(s: Schema, db: Db, k: Spare, i: nat)
    requires Valid(s, db) && Coherent(db, k) && i < |s.sorted| && s.sorted[i].Roles? && !SuperAdminsHoldSystemRoles(db, k)
    ensures Blocked(s, Stage(db, k, Done(s, i + 1)), Cleared(db, k, Roles), Gone(db, k, Roles))
  {
    var r :| r in db && r.table.UserRoles? && UserId in db[r].refs && RoleId in db[r].refs
      && db[r].refs[UserId] in k.users && RowId(Roles, db[r].refs[RoleId]) in db
      && !db[RowId(Roles, db[r].refs[RoleId])].isSystem;
    var e := Edge(UserRoles, RoleId, Roles, Restrict);
    assert e in s.edges;
    StagedRow(db, k, Done(s, i + 1), r);
    assert Survives(db, k, r);
    assert !Survives(db, k, RowId(Roles, db[r].refs[RoleId]));
    assert RowId(Roles, db[r].refs[RoleId]) in Gone(db, k, Roles);
    assert PointsInto(e, r, Stage(db, k, Done(s, i + 1))[r], Gone(db, k, Roles));
  }

  lemma DoneGrows(s: Schema, i: nat, r: RowId)
    requires i < |s.sorted| && !Preserved(s.sorted[i])
    ensures Done(s, i) == Done(s, i + 1) + {s.sorted[i]}
    ensures Reached(Done(s, i), r) <==> Reached(Done(s, i + 1), r) || r.table == s.sorted[i]
                                         || (s.sorted[i].Roles? && r.table.RolePermissions?)
  {
  }

  lemma OnlyAssignedByIsNulled(s: Schema, db: Db, k: Spare, i: nat, r: RowId, e: Edge)
    requires Valid(s, db) && Coherent(db, k) && i < |s.sorted| && !Preserved(s.sorted[i])
    requires r in Stage(db, k, Done(s, i + 1)) && r !in Gone(db, k, s.sorted[i])
    requires e in s.edges && e.onDelete == SetNull
    requires PointsInto(e, r, Stage(db, k, Done(s, i + 1))[r], Gone(db, k, s.sorted[i]))
    ensures s.sorted[i].Users? && r.table.UserRoles? && e.column == AssignedBy && db[r].refs[AssignedBy] !in k.users
  {
    OnlyTwoKeysReachIn(s, db, k, i, r, e);
    GoneRow(db, k, s.sorted[i], RowId(e.parent, Stage(db, k, Done(s, i + 1))[r].refs[e.column]));
  }

  lemma AssignedByIsNulled(s: Schema, db: Db, k: Spare, t: Table, r: RowId)
    requires Valid(s, db) && t.Users? && r in db && r.table.UserRoles?
    requires AssignedBy in db[r].refs && db[r].refs[AssignedBy] !in k.users
    ensures Edge(UserRoles, AssignedBy, Users, SetNull) in s.edges
    ensures PointsInto(Edge(UserRoles, AssignedBy, Users, SetNull), r, db[r], Gone(db, k, t))
  {
    var e := Edge(UserRoles, AssignedBy, Users, SetNull);
    assert e in s.edges && Resolves(db, r, e);
    assert !Survives(db, k, RowId(Users, db[r].refs[AssignedBy]));
  }

  lemma RowAfterStep(s: Schema, db: Db, k: Spare, i: nat, r: RowId)
    requires Valid(s, db) && Coherent(db, k) && i < |s.sorted| && !Preserved(s.sorted[i])
    requires r in Stage(db, k, Done(s, i + 1)) && r !in Gone(db, k, s.sorted[i]) && r in Stage(db, k, Done(s, i))
    ensures Nulled(s, r, Stage(db, k, Done(s, i + 1))[r], Gone(db, k, s.sorted[i])) == Stage(db, k, Done(s, i))[r]
  {
    var t := s.sorted[i];
    var stage := Stage(db, k, Done(s, i + 1));
    var row := stage[r];
    var gone := Gone(db, k, t);
    StagedRow(db, k, Done(s, i + 1), r);
    StagedRow(db, k, Done(s, i), r);
    DoneGrows(s, i, r);
    assert t !in Done(s, i + 1);
    forall e | e in s.edges && e.onDelete == SetNull && PointsInto(e, r, row, gone)
      ensures t.Users? && r.table.UserRoles? && e.column == AssignedBy && row.refs[AssignedBy] !in k.users
    {
      OnlyAssignedByIsNulled(s, db, k, i, r, e);
    }
    NulledRefs(s, r, row, gone, t.Users? && r.table.UserRoles? && AssignedBy in row.refs && row.refs[AssignedBy] !in k.users) by {
      if t.Users? && r.table.UserRoles? && AssignedBy in row.refs && row.refs[AssignedBy] !in k.users {
        AssignedByIsNulled(s, db, k, t, r);
      }
    }
  }

  lemma NulledRefs(s: Schema, r: RowId, row: Row, gone: set<RowId>, forgets: bool)
    requires forall e :: e in s.edges && e.onDelete == SetNull && PointsInto(e, r, row, gone) ==> forgets && e.column == AssignedBy
    requires forgets ==> exists e :: e in s.edges && e.onDelete == SetNull && PointsInto(e, r, row, gone)
    ensures Nulled(s, r, row, gone) == if forgets then row.(refs := row.refs - {AssignedBy}) else row
  {
    assert Nulled(s, r, row, gone).refs == if forgets then row.refs - {AssignedBy} else row.refs;
  }

  /** What a DELETE of the condemned rows leaves is the next stage. */
  lemma NextStage(s: Schema, db: Db, k: Spare, i: nat)
    requires Valid(s, db) && Coherent(db, k) && i < |s.sorted| && !Preserved(s.sorted[i])
    ensures var gone, stage := Gone(db, k, s.sorted[i]), Stage(db, k, Done(s, i + 1));
      (map r | r in stage && r !in gone :: Nulled(s, r, stage[r], gone)) == Stage(db, k, Done(s, i))
  {
    var t := s.sorted[i];
    var stage, gone := Stage(db, k, Done(s, i + 1)), Gone(db, k, t);
    var after := map r | r in stage && r !in gone :: Nulled(s, r, stage[r], gone);
    forall r: RowId
      ensures r in after <==> r in Stage(db, k, Done(s, i))
      ensures r in after ==> after[r] == Stage(db, k, Done(s, i))[r]
    {
      StagedRow(db, k, Done(s, i + 1), r);
      StagedRow(db, k, Done(s, i), r);
      DoneGrows(s, i, r);
      if r in after && r in Stage(db, k, Done(s, i)) { RowAfterStep(s, db, k, i, r); }
    }
    assert after == Stage(db, k, Done(s, i));
  }

  /** One turn of the loop: the DELETE goes through and leaves the next stage,
      except that a custom role held by a super admin stops it at `roles`. */
  lemma Turn(s: Schema, db: Db, k: Spare, i: nat)
    requires Valid(s, db) && Coherent(db, k) && i < |s.sorted| && !Preserved(s.sorted[i])
    ensures Cleared(db, k, s.sorted[i]) <= Stage(db, k, Done(s, i + 1)).Keys
    ensures Delete(s, Stage(db, k, Done(s, i + 1)), s.sorted[i], Cleared(db, k, s.sorted[i]))
         == if s.sorted[i].Roles? && !SuperAdminsHoldSystemRoles(db, k) then Err(ForeignKeyViolation(Roles))
            else Ok(Stage(db, k, Done(s, i)))
  {
    var t := s.sorted[i];
    var stage := Stage(db, k, Done(s, i + 1));
    GoneIsStaged(s, db, k, i);
    NothingElseIsDoomed(s, db, k, i);
    if t.Roles? && !SuperAdminsHoldSystemRoles(db, k) {
      CustomRoleBlocks(s, db, k, i);
    } else {
      NotBlocked(s, db, k, i);
      NextStage(s, db, k, i);
    }
  }

  lemma InDone(s: Schema, t: Table)
    requires t in s.sorted && !Preserved(t)
    ensures t in Done(s, 0)
  {
    var j :| 0 <= j < |s.sorted| && s.sorted[j] == t;
  }

  lemma RowAtTheEnd(s: Schema, db: Db, k: Spare, r: RowId)
    requires Valid(s, db)
    ensures r in Stage(db, k, Done(s, 0)) <==> r in db && Survives(db, k, r)
    ensures r in Stage(db, k, Done(s, 0)) ==> Stage(db, k, Done(s, 0))[r] == Kept(k, r, db[r])
  {
    StagedRow(db, k, Done(s, 0), r);
    if r in db {
      if !Preserved(r.table) { InDone(s, r.table); }
      if r.table.RolePermissions? {
        assert Resolves(db, r, Edge(RolePermissions, RoleId, Roles, Cascade));
        assert RowId(Roles, db[r].refs[RoleId]) in db;
        InDone(s, Roles);
      }
      if r.table.UserRoles? {
        assert Resolves(db, r, Edge(UserRoles, UserId, Users, Cascade));
        assert RowId(Users, db[r].refs[UserId]) in db;
        InDone(s, Users);
      }
    }
  }

  lemma StageBegins(s: Schema, db: Db, k: Spare)
    ensures Stage(db, k, Done(s, |s.sorted|)) == db
  {
    assert Done(s, |s.sorted|) == {};
  }

  lemma StageEnds(s: Schema, db: Db, k: Spare)
    requires Valid(s, db)
    ensures Stage(db, k, Done(s, 0)) == Survivors(db, k)
  {
    forall r: RowId
      ensures r in Stage(db, k, Done(s, 0)) <==> r in Survivors(db, k)
      ensures r in Survivors(db, k) ==> Stage(db, k, Done(s, 0))[r] == Survivors(db, k)[r]
    {
      RowAtTheEnd(s, db, k, r);
    }
  }

  lemma AdminsNeedRoles(s: Schema, db: Db, k: Spare)
    requires Valid(s, db) && Coherent(db, k) && !SuperAdminsHoldSystemRoles(db, k)
    ensures Roles in s.sorted
  {
  }

  /** Having got past `roles`, where a custom role would have stopped it. */
  ghost predicate GotPastRoles(s: Schema, db: Db, k: Spare, i: nat) {
    forall j :: i <= j < |s.sorted| && s.sorted[j].Roles? ==> SuperAdminsHoldSystemRoles(db, k)
  }

  lemma RunEnds(s: Schema, db: Db, k: Spare)
    requires Valid(s, db) && Coherent(db, k) && GotPastRoles(s, db, k, 0)
    ensures SuperAdminsHoldSystemRoles(db, k) && Stage(db, k, Done(s, 0)) == Survivors(db, k)
  {
    StageEnds(s, db, k);
    if !SuperAdminsHoldSystemRoles(db, k) { AdminsNeedRoles(s, db, k); }
  }

  lemma PreservedIdsCohere(db: Db)
    ensures Coherent(db, PreservedIds(db))
  {
  }

  lemma SurvivorsKeepTheirAdmins(s: Schema, db: Db, k: Spare, r: RowId)
    requires Valid(s, db) && k == PreservedIds(db) && SuperAdminsHoldSystemRoles(db, k) && r in db
    ensures GrantsSuperAdmin(db, r) ==> r in Survivors(db, k) && GrantsSuperAdmin(Survivors(db, k), r)
    ensures r in Survivors(db, k) && GrantsSuperAdmin(Survivors(db, k), r) ==> GrantsSuperAdmin(db, r)
    ensures r in Survivors(db, k) ==> forall c :: c != AssignedBy ==>
      (c in Survivors(db, k)[r].refs <==> c in db[r].refs) && (c in db[r].refs ==> Survivors(db, k)[r].refs[c] == db[r].refs[c])
  {
    if GrantsSuperAdmin(db, r) {
      assert db[r].refs[UserId] in k.users;
      assert Survives(db, k, r);
      assert Survives(db, k, RowId(Users, db[r].refs[UserId]));
      assert Survives(db, k, RowId(Roles, db[r].refs[RoleId]));
    }
  }

  /** A second reset would preserve the same people and delete nothing. */
  lemma SecondResetDeletesNothing(s: Schema, db: Db)
    requires Valid(s, db) && SuperAdminsHoldSystemRoles(db, PreservedIds(db))
    ensures var after := Survivors(db, PreservedIds(db));
      PreservedIds(after) == PreservedIds(db) && Counts(s, after, PreservedIds(after)) == map[]
  {
    var k := PreservedIds(db);
    var after := Survivors(db, k);
    SamePeople(s, db, k, after);
    forall t ensures t !in Counts(s, after, k) {
      CountsFromMean(s, after, k, 0, t);
      if !Preserved(t) { ClearedAgain(s, db, k, t); }
    }
  }

  lemma ClearedAgain(s: Schema, db: Db, k: Spare, t: Table)
    requires Valid(s, db) && k == PreservedIds(db) && SuperAdminsHoldSystemRoles(db, k) && !Preserved(t)
    ensures Cleared(Survivors(db, k), k, t) == {}
  {
    var after := Survivors(db, k);
    forall r | r in after && r.table == t ensures r !in Cleared(after, k, t) {
      SurvivorsKeepTheirAdmins(s, db, k, r);
      WhereSpares(r, after[r], k);
      assert Survives(db, k, r);
    }
  }

  lemma SamePeople(s: Schema, db: Db, k: Spare, after: Db)
    requires Valid(s, db) && k == PreservedIds(db) && SuperAdminsHoldSystemRoles(db, k) && after == Survivors(db, k)
    ensures PreservedIds(after) == k
  {
    forall u: int
      ensures u in PreservedUsers(after) <==> u in k.users
    {
      if u in k.users {
        var r :| r in db && GrantsSuperAdmin(db, r) && db[r].refs[UserId] == u;
        SurvivorsKeepTheirAdmins(s, db, k, r);
        assert r in after && GrantsSuperAdmin(after, r) && after[r].refs[UserId] == u;
      }
      if u in PreservedUsers(after) {
        var r :| r in after && GrantsSuperAdmin(after, r) && after[r].refs[UserId] == u;
        SurvivorsKeepTheirAdmins(s, db, k, r);
        assert db[r].refs[UserId] == u;
      }
    }
    assert PreservedUsers(after) == k.users;
    forall p: int
      ensures p in PreservedParties(after) <==> p in k.parties
    {
      if p in k.parties {
        var r :| r in db && r.table.Users? && r.id in k.users && PartyId in db[r].refs && db[r].refs[PartyId] == p;
        assert Survives(db, k, r) && after[r] == db[r];
      }
    }
    assert PreservedParties(after) == k.parties;
  }

  // ---- Who is spared, read off the rows ----

  predicate AssignsSuperAdmin(db: Db, r: RowId, user: int) {
    && r in db && r.table == UserRoles && UserId in db[r].refs && db[r].refs[UserId] == user
    && RoleId in db[r].refs && RowId(Roles, db[r].refs[RoleId]) in db
    && db[RowId(Roles, db[r].refs[RoleId])].slug == "super_admin"
  }

  ghost predicate SuperAdmin(db: Db, user: int) {
    exists r :: AssignsSuperAdmin(db, r, user)
  }

  predicate IsUserOf(db: Db, user: int, party: int) {
    RowId(Users, user) in db && PartyId in db[RowId(Users, user)].refs && db[RowId(Users, user)].refs[PartyId] == party
  }

  ghost predicate PartyOfSuperAdmin(db: Db, party: int) {
    exists user: int :: IsUserOf(db, user, party) && SuperAdmin(db, user)
  }

  predicate RoleIsSystem(db: Db, role: int) {
    RowId(Roles, role) in db && db[RowId(Roles, role)].isSystem
  }

  /** The operator's accounts and identities, the system roles with their grants,
      the lookups and the payment providers; of the club nothing. */
  ghost predicate Outlives(db: Db, r: RowId)
    requires r in db
  {
    var refs := db[r].refs;
    match r.table
    case Users => SuperAdmin(db, r.id)
    case Party => PartyOfSuperAdmin(db, r.id)
    case Persons => PartyId in refs && PartyOfSuperAdmin(db, refs[PartyId])
    case UserRoles => UserId in refs && SuperAdmin(db, refs[UserId])
    case UserIdentities => UserId in refs && SuperAdmin(db, refs[UserId])
    case Roles => db[r].isSystem
    case RolePermissions => RoleId in refs && RoleIsSystem(db, refs[RoleId])
    case Club(_) => false
    case ContactChannels => true
    case ContactTypes => true
    case PartyKinds => true
    case PaymentProviders => true
  }

  /** No assignment gives a super admin a role that is not a system role. */
  ghost predicate OnlySystemRoles(db: Db) {
    forall r :: r in db && r.table == UserRoles && UserId in db[r].refs && RoleId in db[r].refs && SuperAdmin(db, db[r].refs[UserId])
      ==> RoleIsSystem(db, db[r].refs[RoleId])
  }

  /** The rows of a table that a reset takes. */
  ghost function Taken(db: Db, t: Table): set<RowId> {
    set r | r in db && r.table == t && !Outlives(db, r)
  }

  /** `before`, as a reset leaves it: no other row stays, no other value changes
      than the grantor of an assignment when that user goes. */
  ghost predicate Leaves(before: Db, after: Db) {
    && (forall r :: r in after <==> r in before && Outlives(before, r))
    && (forall r :: r in after ==> after[r] == WithoutLostGrantor(before, r))
  }

  ghost function WithoutLostGrantor(before: Db, r: RowId): Row
    requires r in before
  {
    var row := before[r];
    if r.table == UserRoles && AssignedBy in row.refs && !SuperAdmin(before, row.refs[AssignedBy]) then
      row.(refs := row.refs - {AssignedBy})
    else
      row
  }

  lemma SuperAdminIsPreserved(s: Schema, db: Db, user: int)
    requires Valid(s, db)
    ensures SuperAdmin(db, user) <==> user in PreservedUsers(db)
  {
    if SuperAdmin(db, user) {
      var r :| AssignsSuperAdmin(db, r, user);
      var e := Edge(UserRoles, UserId, Users, Cascade);
      assert e in s.edges && Resolves(db, r, e);
      assert GrantsSuperAdmin(db, r);
    }
    if user in PreservedUsers(db) {
      var r :| r in db && GrantsSuperAdmin(db, r) && db[r].refs[UserId] == user;
      assert AssignsSuperAdmin(db, r, user);
    }
  }

  /** A reset that goes through makes and unmakes no super admin. */
  lemma SuperAdminsRemain(s: Schema, db: Db, user: int)
    requires Valid(s, db) && OnlySystemRoles(db)
    ensures SuperAdmin(Survivors(db, PreservedIds(db)), user) <==> SuperAdmin(db, user)
  {
    RefusalOnRows(s, db);
    var after := Survivors(db, PreservedIds(db));
    forall r | r in db ensures AssignsSuperAdmin(after, r, user) <==> AssignsSuperAdmin(db, r, user) {
      SurvivorsKeepTheirAdmins(s, db, PreservedIds(db), r);
      if AssignsSuperAdmin(db, r, user) { assert Resolves(db, r, Edge(UserRoles, UserId, Users, Cascade)); }
    }
    assert forall r :: AssignsSuperAdmin(after, r, user) ==> r in db;
  }

  lemma PartyIsPreserved(s: Schema, db: Db, party: int)
    requires Valid(s, db)
    ensures PartyOfSuperAdmin(db, party) <==> party in PreservedParties(db)
  {
    if PartyOfSuperAdmin(db, party) {
      var user: int :| IsUserOf(db, user, party) && SuperAdmin(db, user);
      SuperAdminIsPreserved(s, db, user);
      assert RowId(Users, user) in db;
    }
    if party in PreservedParties(db) {
      var r :| r in db && r.table.Users? && r.id in PreservedUsers(db) && PartyId in db[r].refs && db[r].refs[PartyId] == party;
      SuperAdminIsPreserved(s, db, r.id);
      assert r == RowId(Users, r.id) && IsUserOf(db, r.id, party);
    }
  }

  lemma OutlivesIffSurvives(s: Schema, db: Db, r: RowId)
    requires Valid(s, db) && r in db
    ensures Outlives(db, r) <==> Survives(db, PreservedIds(db), r)
  {
    var refs := db[r].refs;
    match r.table
    case Users => SuperAdminIsPreserved(s, db, r.id);
    case Party => PartyIsPreserved(s, db, r.id);
    case Persons => PartyIsPreserved(s, db, refs[PartyId]);
    case UserRoles => SuperAdminIsPreserved(s, db, refs[UserId]);
    case UserIdentities => SuperAdminIsPreserved(s, db, refs[UserId]);
    case _ =>
  }

  lemma SurvivorsAreLeft(s: Schema, db: Db)
    requires Valid(s, db)
    ensures Leaves(db, Survivors(db, PreservedIds(db)))
  {
    var k := PreservedIds(db);
    forall r | r in db
      ensures Outlives(db, r) <==> Survives(db, k, r)
      ensures r.table == UserRoles && AssignedBy in db[r].refs ==>
        (SuperAdmin(db, db[r].refs[AssignedBy]) <==> db[r].refs[AssignedBy] in k.users)
    {
      OutlivesIffSurvives(s, db, r);
      if r.table == UserRoles && AssignedBy in db[r].refs { SuperAdminIsPreserved(s, db, db[r].refs[AssignedBy]); }
    }
  }

  ghost predicate CountsAgree(counts: map<Table, nat>, db: Db, t: Table) {
    (t in counts <==> t != RolePermissions && Taken(db, t) != {}) && (t in counts ==> counts[t] == |Taken(db, t)|)
  }

  lemma CountsAreOfTheTaken(s: Schema, db: Db, t: Table)
    requires Valid(s, db)
    ensures CountsAgree(Counts(s, db, PreservedIds(db)), db, t)
  {
    var k := PreservedIds(db);
    CountsFromMean(s, db, k, 0, t);
    forall r | r in db && r.table == t
      ensures !Preserved(t) ==> (r in Cleared(db, k, t) <==> r in Taken(db, t))
      ensures Preserved(t) && t != RolePermissions ==> r !in Taken(db, t)
    {
      OutlivesIffSurvives(s, db, r);
      if !Preserved(t) { ClearedRow(db, k, t, r); }
    }
    if !Preserved(t) { assert Cleared(db, k, t) == Taken(db, t); }
    assert s.sorted[0..] == s.sorted;
    assert forall r :: r in Taken(db, t) ==> r in db && t in s.sorted;
  }

  lemma RefusalOnRows(s: Schema, db: Db)
    requires Valid(s, db)
    ensures SuperAdminsHoldSystemRoles(db, PreservedIds(db)) <==> OnlySystemRoles(db)
  {
    forall r | r in db && r.table == UserRoles && UserId in db[r].refs && RoleId in db[r].refs
      ensures SuperAdmin(db, db[r].refs[UserId]) <==> db[r].refs[UserId] in PreservedUsers(db)
      ensures RowId(Roles, db[r].refs[RoleId]) in db
    {
      SuperAdminIsPreserved(s, db, db[r].refs[UserId]);
      assert Resolves(db, r, Edge(UserRoles, RoleId, Roles, Restrict));
    }
  }

  // ---- The command ----

  class Session {
    const schema: Schema
    var db: Db

    constructor (schema: Schema, db: Db)
      ensures this.schema == schema && this.db == db
    {
      this.schema := schema;
      this.db := db;
    }

    method PreviewClubData() returns (res: Result<map<Table, nat>>)
      requires Valid(schema, db)
      ensures res == if Classified(schema) then Ok(Counts(schema, db, PreservedIds(db))) else Err(UnknownTables)
      ensures res.Ok? ==> forall t :: CountsAgree(res.value, db, t)
    {
      forall t ensures CountsAgree(Counts(schema, db, PreservedIds(db)), db, t) { CountsAreOfTheTaken(schema, db, t); }
      if !Classified(schema) { return Err(UnknownTables); }
      var k := PreservedIds(db);
      var counts: map<Table, nat> := map[];
      var i := |schema.sorted|;
      while i > 0
        invariant 0 <= i <= |schema.sorted|
        invariant counts == CountsFrom(schema, db, k, i)
      {
        i := i - 1;
        var t := schema.sorted[i];
        if !Preserved(t) {
          var count := |Target(db, t, Where(t, k))|;
          if count > 0 { counts := counts[t := count]; }
        }
      }
      return Ok(counts);
    }

    /** Every classified, consistent database ends at exactly its survivors,
        and the report is what the preview announced — unless a super admin
        holds a custom role, which stops the run at `roles`. */
    method ResetClubData() returns (res: Result<map<Table, nat>>)
      requires Valid(schema, db)
      modifies `db
      ensures var k := PreservedIds(old(db));
        res == if !Classified(schema) then Err(UnknownTables)
               else if SuperAdminsHoldSystemRoles(old(db), k) then Ok(Counts(schema, old(db), k))
               else Err(ForeignKeyViolation(Roles))
      ensures res.Ok? ==> db == Survivors(old(db), PreservedIds(old(db)))
      ensures res.Ok? ==> Leaves(old(db), db)
      ensures res.Ok? <==> Classified(schema) && OnlySystemRoles(old(db))
      ensures res.Ok? ==> forall t :: CountsAgree(res.value, old(db), t)
      ensures res == Err(UnknownTables) ==> db == old(db)
      ensures Consistent(schema, db)
    {
      SurvivorsAreLeft(schema, db);
      RefusalOnRows(schema, db);
      forall t ensures CountsAgree(Counts(schema, db, PreservedIds(db)), db, t) { CountsAreOfTheTaken(schema, db, t); }
      if !Classified(schema) { return Err(UnknownTables); }
      PreservedIdsCohere(db);
      res := DeleteAllBut(PreservedIds(db));
    }

    method DeleteAllBut(k: Spare) returns (res: Result<map<Table, nat>>)
      requires Valid(schema, db) && Coherent(db, k)
      modifies `db
      ensures res == if SuperAdminsHoldSystemRoles(old(db), k) then Ok(Counts(schema, old(db), k))
                     else Err(ForeignKeyViolation(Roles))
      ensures res.Ok? ==> db == Survivors(old(db), k)
      ensures Consistent(schema, db)
    {
      var deleted: map<Table, nat> := map[];
      ghost var start := db;
      StageBegins(schema, start, k);
      var i := |schema.sorted|;
      while i > 0
        invariant 0 <= i <= |schema.sorted|
        invariant db == Stage(start, k, Done(schema, i)) && Consistent(schema, db)
        invariant GotPastRoles(schema, start, k, i)
        invariant deleted == CountsFrom(schema, start, k, i)
      {
        var step := ClearNext(k, i - 1, start, deleted);
        if step.Err? { return step; }
        i, deleted := i - 1, step.value;
      }
      RunEnds(schema, start, k);
      return Ok(deleted);
    }

    /** One turn of the loop, which passes over the preserved tables. */
    method ClearNext(k: Spare, i: nat, ghost start: Db, deleted: map<Table, nat>) returns (res: Result<map<Table, nat>>)
      requires Valid(schema, start) && Coherent(start, k) && i < |schema.sorted|
      requires db == Stage(start, k, Done(schema, i + 1)) && Consistent(schema, db)
      requires deleted == CountsFrom(schema, start, k, i + 1)
      modifies `db
      ensures res == if schema.sorted[i].Roles? && !SuperAdminsHoldSystemRoles(start, k) then Err(ForeignKeyViolation(Roles))
                     else Ok(CountsFrom(schema, start, k, i))
      ensures res.Ok? ==> db == Stage(start, k, Done(schema, i))
      ensures Consistent(schema, db)
    {
      if Preserved(schema.sorted[i]) {
        assert Done(schema, i) == Done(schema, i + 1);
        return Ok(deleted);
      }
      var cleared := Clear(k, i, start);
      match cleared
      case Err(error) => return Err(error);
      case Ok(count) => return Ok(if count > 0 then deleted[schema.sorted[i] := count] else deleted);
    }

    /** One DELETE of the run, on the table at index `i`. */
    method Clear(k: Spare, i: nat, ghost start: Db) returns (res: Result<nat>)
      requires Valid(schema, start) && Coherent(start, k) && i < |schema.sorted| && !Preserved(schema.sorted[i])
      requires db == Stage(start, k, Done(schema, i + 1)) && Consistent(schema, db)
      modifies `db
      ensures res == if schema.sorted[i].Roles? && !SuperAdminsHoldSystemRoles(start, k) then Err(ForeignKeyViolation(Roles))
                     else Ok(|Cleared(start, k, schema.sorted[i])|)
      ensures res.Ok? ==> db == Stage(start, k, Done(schema, i))
      ensures Consistent(schema, db)
    {
      var t := schema.sorted[i];
      var c := Where(t, k);
      assert t !in Done(schema, i + 1);
      StageTarget(start, k, t, Done(schema, i + 1), c);
      Turn(schema, start, k, i);
      var target := Target(db, t, c);
      DeleteKeepsConsistent(schema, db, t, target);
      match Delete(schema, db, t, target)
      case Err(error) => return Err(error);
      case Ok(after) =>
        db := after;
        return Ok(|target|);
    }
  }
}
