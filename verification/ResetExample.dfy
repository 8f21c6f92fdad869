/** That the assumptions of the reset can be met, and that its one refusal can
    happen. */
module ResetExample {
  import opened Reset

  function Place(t: Table): nat {
    match t
    case PartyKinds => 0 case ContactChannels => 1 case ContactTypes => 2 case Party => 3
    case Users => 4 case Persons => 5 case Roles => 8 case RolePermissions => 9
    case UserRoles => 10 case UserIdentities => 11 case PaymentProviders => 12
    case Club(name) => if name == "members" then 6 else 7
  }

  lemma PlacedIsParentsFirst(s: Schema)
    requires forall i :: 0 <= i < |s.sorted| ==> Place(s.sorted[i]) == i
    requires KEPT_EDGES <= s.edges
    requires forall e :: e in s.edges && e !in KEPT_EDGES ==>
      e.child.Club? && (e.child == e.parent || Place(e.parent) < Place(e.child))
    ensures WellFormed(s)
  {
    assert forall e :: e in KEPT_EDGES ==> Place(e.parent) < Place(e.child);
    forall e, i: nat, j: nat | e in s.edges ensures ParentFirst(s, e, i, j) {
    }
  }

  const SAMPLE_TABLES: seq<Table> := [
    PartyKinds, ContactChannels, ContactTypes, Party, Users, Persons, Club("members"), Club("receipts"),
    Roles, RolePermissions, UserRoles, UserIdentities, PaymentProviders
  ]

  const SAMPLE_EDGES: set<Edge> := {
    Edge(Club("members"), PartyId, Party, Cascade),
    Edge(Club("members"), Other("created_by"), Users, SetNull),
    Edge(Club("receipts"), PartyId, Party, NoAction),
    Edge(Club("receipts"), Other("rectifies_receipt_id"), Club("receipts"), Restrict)
  }

  lemma SampleIsPlaced()
    ensures Place(Club("members")) == 6 && Place(Club("receipts")) == 7
    ensures forall e :: e in SAMPLE_EDGES ==> e.child.Club? && (e.child == e.parent || Place(e.parent) < Place(e.child))
  {
    assert |"members"| != |"receipts"|;
  }

  lemma SampleSortedByPlace()
    ensures forall i :: 0 <= i < |SAMPLE_TABLES| ==> Place(SAMPLE_TABLES[i]) == i
  {
    SampleIsPlaced();
  }

  /** The conditions on a schema are met, with the club's own foreign keys in
      it, a self-reference that restricts included. */
  lemma SomeSchemaIsWellFormed()
    ensures WellFormed(SAMPLE_SCHEMA) && Classified(SAMPLE_SCHEMA)
  {
    SampleIsPlaced();
    SampleSortedByPlace();
    PlacedIsParentsFirst(SAMPLE_SCHEMA);
    assert "members" in CLUB_TABLES && "receipts" in CLUB_TABLES;
  }

  const SAMPLE_SCHEMA := Schema(SAMPLE_TABLES, KEPT_EDGES + SAMPLE_EDGES)

  /** A table nobody has classified, anywhere in the schema, stops the command. */
  lemma NewTableStopsTheReset(s: Schema)
    requires Club("loyalty_points") in s.sorted
    ensures !Classified(s)
  {
    var i :| 0 <= i < |s.sorted| && s.sorted[i] == Club("loyalty_points");
    NotAClubTable();
    assert !Known(s.sorted[i]);
  }

  lemma NotAClubTable()
    ensures "loyalty_points" !in CLUB_TABLES
  {
    assert "loyalty_points"[0] == 'l';
    assert forall name :: name in CLUB_TABLES ==> name[0] != 'l';
  }

  /** One user with two roles, the super admin's and one the club made up. */
  const TWO_ROLES: Db := map[
    RowId(Party, 1) := Row(map[], "", false),
    RowId(Users, 1) := Row(map[PartyId := 1], "", false),
    RowId(Roles, 1) := Row(map[], SUPER_ADMIN, true),
    RowId(Roles, 2) := Row(map[], "treasurer", false),
    RowId(UserRoles, 1) := Row(map[UserId := 1, RoleId := 1], "", false),
    RowId(UserRoles, 2) := Row(map[UserId := 1, RoleId := 2], "", false)
  ]

  lemma TwoRolesHangTogether(r: RowId, e: Edge)
    requires e.child.Club? || e in KEPT_EDGES
    ensures Resolves(TWO_ROLES, r, e)
  {
  }

  lemma TwoRolesHaveColumns()
    ensures ColumnsPresent(TWO_ROLES)
  {
  }

  lemma TwoRolesAreListed(r: RowId)
    requires r in TWO_ROLES
    ensures r.table in SAMPLE_TABLES
  {
    assert SAMPLE_TABLES[3] == Party && SAMPLE_TABLES[4] == Users && SAMPLE_TABLES[8] == Roles && SAMPLE_TABLES[10] == UserRoles;
  }

  lemma AllIsValid(s: Schema, db: Db)
    requires WellFormed(s) && ColumnsPresent(db) && forall r :: r in db ==> r.table in s.sorted
    requires forall r, e {:trigger Resolves(db, r, e)} :: e in s.edges ==> Resolves(db, r, e)
    ensures Valid(s, db)
  {
  }

  lemma TwoRolesIsValid(s: Schema)
    requires s == SAMPLE_SCHEMA
    ensures Valid(s, TWO_ROLES) && Classified(s)
  {
    SomeSchemaIsWellFormed();
    TwoRolesHaveColumns();
    forall r, e {:trigger Resolves(TWO_ROLES, r, e)} | e in s.edges ensures Resolves(TWO_ROLES, r, e) { TwoRolesHangTogether(r, e); }
    forall r | r in TWO_ROLES ensures r.table in s.sorted { TwoRolesAreListed(r); }
    AllIsValid(s, TWO_ROLES);
  }

  lemma FirstRole()
    ensures RowId(UserRoles, 1) in TWO_ROLES && GrantsSuperAdmin(TWO_ROLES, RowId(UserRoles, 1))
    ensures TWO_ROLES[RowId(UserRoles, 1)].refs[UserId] == 1
  {
  }

  lemma SecondRole()
    ensures RowId(UserRoles, 2) in TWO_ROLES && RowId(Roles, 2) in TWO_ROLES
    ensures TWO_ROLES[RowId(UserRoles, 2)].refs == map[UserId := 1, RoleId := 2] && !TWO_ROLES[RowId(Roles, 2)].isSystem
  {
  }

  /** An ordinary database that the reset refuses. */
  lemma SuperAdminWithACustomRole()
    ensures Valid(SAMPLE_SCHEMA, TWO_ROLES) && Classified(SAMPLE_SCHEMA)
    ensures !SuperAdminsHoldSystemRoles(TWO_ROLES, PreservedIds(TWO_ROLES))
  {
    TwoRolesIsValid(SAMPLE_SCHEMA);
    FirstRole();
    SecondRole();
    HoldsCustomRole(TWO_ROLES, RowId(UserRoles, 1), RowId(UserRoles, 2));
  }

  lemma HoldsCustomRole(db: Db, grant: RowId, other: RowId)
    requires grant in db && GrantsSuperAdmin(db, grant)
    requires other in db && other.table.UserRoles? && UserId in db[other].refs && RoleId in db[other].refs
    requires db[other].refs[UserId] == db[grant].refs[UserId]
    requires RowId(Roles, db[other].refs[RoleId]) in db && !db[RowId(Roles, db[other].refs[RoleId])].isSystem
    ensures !SuperAdminsHoldSystemRoles(db, PreservedIds(db))
  {
    assert db[grant].refs[UserId] in PreservedUsers(db);
  }
}
