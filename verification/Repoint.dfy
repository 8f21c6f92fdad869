/** Repointing the money and participation tables from members to parties, and
    back. */
module Repoint {
  import opened Common

  datatype Member = Member(party: int, active: bool)

  /** `owner` is the member_id before the upgrade and the party_id after it;
      `key` is what the partial unique index holds beside it, `live` its WHERE. */
  datatype Row = Row(owner: int, key: int, live: bool)

  datatype Table = Receipts | SepaMandates | Registrations | Bookings

  const EDGES: seq<Table> := [Receipts, SepaMandates, Registrations, Bookings]

  /** The tables whose partial unique index is keyed on the repointed column. */
  const UNIQUES: seq<Table> := [SepaMandates, Registrations, Bookings]

  type Members = map<int, Member>
  type Rows = map<int, Row>

  predicate Clash(rows: Rows, a: int, b: int) {
    && a in rows && b in rows && a != b
    && rows[a].live && rows[b].live && rows[a].key == rows[b].key && rows[a].owner == rows[b].owner
  }

  predicate Unique(rows: Rows) {
    forall a, b :: a in rows && b in rows ==> !Clash(rows, a, b)
  }

  // ---- The two remaps, each one UPDATE over the old snapshot ----

  function ToParty(members: Members, row: Row): Row {
    if row.owner in members then row.(owner := members[row.owner].party) else row
  }

  function Repointed(members: Members, rows: Rows): Rows {
    map id | id in rows :: ToParty(members, rows[id])
  }

  /** `ORDER BY party_id, is_active DESC, id DESC`, within one party. */
  predicate Before(members: Members, a: int, b: int)
    requires a in members && b in members
  {
    (members[a].active && !members[b].active) || (members[a].active == members[b].active && a > b)
  }

  predicate IsPicked(members: Members, party: int, id: int) {
    && id in members && members[id].party == party
    && forall m :: m in members && members[m].party == party && m != id ==> Before(members, id, m)
  }

  predicate HasMember(members: Members, party: int) {
    exists m :: m in members && members[m].party == party
  }

  predicate IsFirst(members: Members, ids: set<int>, id: int)
    requires ids <= members.Keys
  {
    id in ids && forall m :: m in ids && m != id ==> Before(members, id, m)
  }

  lemma {:induction false} SomeoneIsFirst(members: Members, ids: set<int>, some: int) returns (first: int)
    requires ids <= members.Keys && some in ids
    ensures IsFirst(members, ids, first)
    decreases ids
  {
    var rest := ids - {some};
    first := some;
    if rest != {} {
      var next := SomeElement(rest);
      var y := SomeoneIsFirst(members, rest, next);
      first := if Before(members, some, y) then some else y;
      assert forall m :: m in ids ==> m == some || m in rest;
      forall m | m in ids && m != first ensures Before(members, first, m) {
        if m != some && m != y { assert m in rest && Before(members, y, m); }
      }
    } else {
      assert forall m :: m in ids && m != some ==> m in rest;
    }
  }

  lemma PickExists(members: Members, party: int)
    requires HasMember(members, party)
    ensures exists id :: IsPicked(members, party, id)
  {
    var ids := set m | m in members && members[m].party == party;
    var some :| some in members && members[some].party == party;
    var id := SomeoneIsFirst(members, ids, some);
    assert IsPicked(members, party, id);
  }

  /** `DISTINCT ON (party_id)`: the member the transitional API names. */
  function Picked(members: Members, party: int): (id: int)
    requires HasMember(members, party)
    ensures IsPicked(members, party, id)
  {
    PickExists(members, party);
    var id :| IsPicked(members, party, id);
    id
  }

  function ToMember(members: Members, row: Row): Row {
    if HasMember(members, row.owner) then row.(owner := Picked(members, row.owner)) else row
  }

  function MappedBack(members: Members, rows: Rows): Rows {
    map id | id in rows :: ToMember(members, rows[id])
  }

  function Stranded(members: Members, rows: Rows): set<int> {
    set id | id in rows && !HasMember(members, rows[id].owner)
  }

  // ---- The keys in force ----

  /** A foreign key on the owner column.  Neither the old nor the new one is
      deferrable, so it is checked when an UPDATE of the column ends. */
  predicate PointsInto(rows: Rows, keys: set<int>) {
    forall id :: id in rows ==> rows[id].owner in keys
  }

  /** On the way up the UPDATE runs before the key to members is dropped. */
  predicate PartiesAreMemberIds(members: Members, rows: Rows) {
    forall id :: id in rows && rows[id].owner in members ==> members[rows[id].owner].party in members
  }

  /** On the way down it runs before the key to party is dropped. */
  predicate PicksArePartyIds(members: Members, parties: set<int>, rows: Rows) {
    forall id :: id in rows && HasMember(members, rows[id].owner) ==> Picked(members, rows[id].owner) in parties
  }

  // ---- The migration ----

  datatype Error = ForeignKeyViolation(on: Table) | DuplicateKey(at: Table) | CannotDowngrade(table: Table, stranded: nat)

  datatype Result = Ok | Err(error: Error)

  class Database {
    const parties: set<int>
    const members: Members
    var tables: map<Table, Rows>
    /** The tables whose index is in place. */
    var indexed: set<Table>

    constructor (parties: set<int>, members: Members, tables: map<Table, Rows>)
      requires forall t: Table :: t in tables
      ensures this.parties == parties && this.members == members && this.tables == tables && indexed == {}
    {
      this.parties, this.members, this.tables, this.indexed := parties, members, tables, {};
    }

    ghost predicate Complete()
      reads this
    {
      (forall t: Table :: t in tables) && forall m :: m in members ==> members[m].party in parties
    }

    /** Every row names a member, and every index holds. */
    ghost predicate ByMember()
      reads this
    {
      && Complete()
      && (forall t :: t in tables ==> PointsInto(tables[t], members.Keys))
      && (forall t :: t in UNIQUES ==> t in indexed && Unique(tables[t]))
    }

    /** Every row names a party, and every index holds. */
    ghost predicate ByParty()
      reads this
    {
      && Complete()
      && (forall t :: t in tables ==> PointsInto(tables[t], parties))
      && (forall t :: t in UNIQUES ==> t in indexed && Unique(tables[t]))
    }

    /** `CREATE UNIQUE INDEX` on each table in turn; the first duplicate stops it. */
    method CreateIndexes() returns (res: Result)
      requires Complete()
      modifies `indexed
      ensures res.Ok? <==> forall t :: t in UNIQUES ==> Unique(tables[t])
      ensures res.Ok? ==> indexed == old(indexed) + set t | t in UNIQUES
      ensures res.Err? ==> res.error.DuplicateKey? && res.error.at in UNIQUES && !Unique(tables[res.error.at])
    {
      var i := 0;
      while i < |UNIQUES|
        invariant 0 <= i <= |UNIQUES|
        invariant forall j :: 0 <= j < i ==> Unique(tables[UNIQUES[j]])
        invariant indexed == old(indexed) + set t | t in UNIQUES[..i]
      {
        if !Unique(tables[UNIQUES[i]]) { return Err(DuplicateKey(UNIQUES[i])); }
        indexed := indexed + {UNIQUES[i]};
        i := i + 1;
      }
      return Ok;
    }

    /** The UPDATE of each table in turn, under the key to `keys`; the first one
        that leaves a row outside `keys` is refused. */
    method Update(after: map<Table, Rows>, keys: set<int>) returns (res: Result)
      requires (forall t: Table :: t in tables) && (forall t: Table :: t in after)
      modifies `tables
      ensures res.Ok? <==> forall t: Table :: PointsInto(after[t], keys)
      ensures res.Ok? ==> tables == after
      ensures res.Err? ==> res.error.ForeignKeyViolation? && !PointsInto(after[res.error.on], keys)
    {
      var i := 0;
      while i < |EDGES|
        invariant 0 <= i <= |EDGES| && (forall t: Table :: t in tables)
        invariant forall j :: 0 <= j < i ==> tables[EDGES[j]] == after[EDGES[j]] && PointsInto(after[EDGES[j]], keys)
      {
        var t := EDGES[i];
        if !PointsInto(after[t], keys) { return Err(ForeignKeyViolation(t)); }
        tables := tables[t := after[t]];
        i := i + 1;
      }
      forall t: Table ensures tables[t] == after[t] && PointsInto(after[t], keys) {
        EveryTableIsAnEdge(t);
        var j :| 0 <= j < |EDGES| && EDGES[j] == t;
      }
      assert tables == after;
      return Ok;
    }

    /** What both directions do in one transaction: the indexes go, the columns are
        rewritten under the key in force, the indexes come back, or nothing happens. */
    method Migrate(after: map<Table, Rows>, keys: set<int>) returns (res: Result)
      requires Complete() && forall t: Table :: t in after
      modifies `tables, `indexed
      ensures res.Ok? <==> (forall t: Table :: PointsInto(after[t], keys)) && forall t :: t in UNIQUES ==> Unique(after[t])
      ensures res.Ok? ==> tables == after && forall t :: t in UNIQUES ==> t in indexed
      ensures res.Err? ==> tables == old(tables) && indexed == old(indexed)
      ensures res.Err? ==> if res.error.ForeignKeyViolation? then !PointsInto(after[res.error.on], keys)
                           else res.error.DuplicateKey? && res.error.at in UNIQUES && !Unique(after[res.error.at])
    {
      var savedTables, savedIndexed := tables, indexed;
      indexed := {};
      res := Update(after, keys);
      if res.Ok? { res := CreateIndexes(); }
      if res.Err? { tables, indexed := savedTables, savedIndexed; }
    }

    /** In one transaction: all tables on the new key with their indexes, or
        nothing.  It goes through exactly when every new party number is a member
        number too, the old key being still in force, and no two memberships of one
        party hold the same key. */
    method Upgrade() returns (res: Result)
      requires ByMember()
      modifies this
      ensures res.Ok? <==>
        && (forall t :: t in old(tables) ==> PartiesAreMemberIds(members, old(tables)[t]))
        && (forall t :: t in UNIQUES ==> !TwoMembershipsClash(members, old(tables)[t]))
      ensures res.Ok? ==> ByParty() && tables == map t | t in old(tables) :: Repointed(members, old(tables)[t])
      ensures res.Err? ==> tables == old(tables) && indexed == old(indexed)
      ensures res.Err? ==> if res.error.ForeignKeyViolation? then !PartiesAreMemberIds(members, tables[res.error.on])
                           else res.error.DuplicateKey? && TwoMembershipsClash(members, tables[res.error.at])
    {
      var after := map t | t in tables :: Repointed(members, tables[t]);
      AllUpgradeKeepsKeys(members, parties, tables, after);
      res := Migrate(after, members.Keys);
    }

    /** Refused when a row's party has no membership; otherwise it goes through
        exactly when every picked member number is a party number too. */
    method Downgrade() returns (res: Result)
      requires ByParty()
      modifies this
      ensures res.Ok? <==> forall t :: t in old(tables) ==>
        Stranded(members, old(tables)[t]) == {} && PicksArePartyIds(members, parties, old(tables)[t])
      ensures res.Ok? ==> ByMember() && tables == map t | t in old(tables) :: MappedBack(members, old(tables)[t])
      ensures res.Err? ==> tables == old(tables) && indexed == old(indexed)
      ensures res.Err? ==>
        if res.error.CannotDowngrade? then res.error.stranded == |Stranded(members, tables[res.error.table])| > 0
        else res.error.ForeignKeyViolation? && !PicksArePartyIds(members, parties, tables[res.error.on])
    {
      ghost var start := tables;
      res := RefuseStranded();
      if res.Err? { return; }
      var after := map t | t in tables :: MappedBack(members, tables[t]);
      forall t | t in start
        ensures PointsInto(after[t], parties) <==> PicksArePartyIds(members, parties, start[t])
        ensures PointsInto(after[t], members.Keys)
        ensures Unique(start[t]) ==> Unique(after[t])
      {
        DowngradeKeepsKeys(members, parties, start[t]);
      }
      res := Migrate(after, parties);
    }

    /** The count of rows the old schema cannot hold, table by table. */
    method RefuseStranded() returns (res: Result)
      requires forall t: Table :: t in tables
      ensures res.Ok? <==> forall t :: t in tables ==> Stranded(members, tables[t]) == {}
      ensures res.Err? ==> res.error.CannotDowngrade? && res.error.stranded == |Stranded(members, tables[res.error.table])| > 0
    {
      var i := 0;
      while i < |EDGES|
        invariant 0 <= i <= |EDGES|
        invariant forall j :: 0 <= j < i ==> Stranded(members, tables[EDGES[j]]) == {}
      {
        var stranded := |Stranded(members, tables[EDGES[i]])|;
        if stranded > 0 { return Err(CannotDowngrade(EDGES[i], stranded)); }
        i := i + 1;
      }
      forall t | t in tables ensures Stranded(members, tables[t]) == {} {
        EveryTableIsAnEdge(t);
      }
      return Ok;
    }
  }

  lemma EveryTableIsAnEdge(t: Table)
    ensures t in EDGES && t in EDGES[..|EDGES|]
  {
    assert EDGES[0] == Receipts && EDGES[1] == SepaMandates && EDGES[2] == Registrations && EDGES[3] == Bookings;
    assert EDGES[..|EDGES|] == EDGES;
  }

  // ---- What the remaps keep and lose ----

  /** Two different members of one party hold live rows under the same key. */
  predicate TwoMembershipsClash(members: Members, rows: Rows) {
    exists a, b :: a in rows && b in rows && MembershipsClash(members, rows, a, b)
  }

  predicate MembershipsClash(members: Members, rows: Rows, a: int, b: int) {
    && a in rows && b in rows && rows[a].owner in members && rows[b].owner in members
    && rows[a].live && rows[b].live && rows[a].key == rows[b].key
    && rows[a].owner != rows[b].owner && members[rows[a].owner].party == members[rows[b].owner].party
  }

  /** The new index can be built over rows the old one allowed exactly when no
      party's memberships clash. */
  lemma UniqueByPartyIff(members: Members, rows: Rows)
    requires Unique(rows) && forall id :: id in rows ==> rows[id].owner in members
    ensures Unique(Repointed(members, rows)) <==> !TwoMembershipsClash(members, rows)
  {
    var after := Repointed(members, rows);
    forall a, b | a in rows && b in rows
      ensures Clash(after, a, b) <==> MembershipsClash(members, rows, a, b)
    {
      assert !Clash(rows, a, b);
    }
  }

  lemma PickedIsUnique(members: Members, party: int, id: int)
    requires IsPicked(members, party, id)
    ensures HasMember(members, party) && Picked(members, party) == id
  {
  }

  /** The member picked is an active one if the party has any, and of those the one
      with the highest number. */
  lemma PickedMeans(members: Members, party: int, other: int)
    requires other in members && members[other].party == party
    ensures HasMember(members, party)
    ensures var picked := Picked(members, party);
      && picked in members && members[picked].party == party
      && (members[other].active ==> members[picked].active)
      && (members[other].active == members[picked].active ==> other <= picked)
  {
    assert HasMember(members, party);
    assert IsPicked(members, party, Picked(members, party));
  }

  lemma KeyedTables(t: Table)
    ensures t in UNIQUES <==> t == SepaMandates || t == Registrations || t == Bookings
  {
    assert UNIQUES[0] == SepaMandates && UNIQUES[1] == Registrations && UNIQUES[2] == Bookings;
  }

  /** Where the downgrade is not refused, upgrading again restores every row. */
  lemma UpgradeUndoesDowngrade(members: Members, rows: Rows)
    requires Stranded(members, rows) == {}
    ensures Repointed(members, MappedBack(members, rows)) == rows
  {
    forall id | id in rows
      ensures ToParty(members, ToMember(members, rows[id])) == rows[id]
    {
      assert id !in Stranded(members, rows);
    }
  }

  /** Different parties are mapped back to different members, so no index breaks. */
  lemma DowngradeKeepsUnique(members: Members, rows: Rows)
    requires Stranded(members, rows) == {}
    ensures Unique(rows) ==> Unique(MappedBack(members, rows))
    ensures forall id :: id in rows ==> MappedBack(members, rows)[id].owner in members
  {
    var back := MappedBack(members, rows);
    forall id | id in rows ensures HasMember(members, rows[id].owner) {
      assert id !in Stranded(members, rows);
    }
    forall a, b | a in rows && b in rows && Clash(back, a, b) ensures Clash(rows, a, b) {
      assert members[back[a].owner].party == rows[a].owner;
      assert members[back[b].owner].party == rows[b].owner;
    }
  }

  /** Up and down again restores exactly the rows whose member is the one the
      downgrade picks for its party: active first, then the newest. */
  lemma DowngradeUndoesUpgradeIff(members: Members, rows: Rows, id: int)
    requires id in rows && rows[id].owner in members
    ensures MappedBack(members, Repointed(members, rows))[id] == rows[id]
       <==> IsPicked(members, members[rows[id].owner].party, rows[id].owner)
  {
    var party := members[rows[id].owner].party;
    assert HasMember(members, party);
    if IsPicked(members, party, rows[id].owner) { PickedIsUnique(members, party, rows[id].owner); }
  }

  lemma UpgradeKeepsKeys(members: Members, parties: set<int>, rows: Rows)
    requires PointsInto(rows, members.Keys) && forall m :: m in members ==> members[m].party in parties
    ensures PointsInto(Repointed(members, rows), members.Keys) <==> PartiesAreMemberIds(members, rows)
    ensures PointsInto(Repointed(members, rows), parties)
    ensures Unique(rows) ==> (Unique(Repointed(members, rows)) <==> !TwoMembershipsClash(members, rows))
  {
    var after := Repointed(members, rows);
    assert forall id :: id in rows ==> rows[id].owner in members && after[id].owner == members[rows[id].owner].party;
    if Unique(rows) { UniqueByPartyIff(members, rows); }
  }

  lemma AllUpgradeKeepsKeys(members: Members, parties: set<int>, start: map<Table, Rows>, after: map<Table, Rows>)
    requires (forall t: Table :: t in start && t in after) && forall m :: m in members ==> members[m].party in parties
    requires forall t :: t in start ==> PointsInto(start[t], members.Keys) && after[t] == Repointed(members, start[t])
    ensures forall t :: t in start ==> (PointsInto(after[t], members.Keys) <==> PartiesAreMemberIds(members, start[t]))
    ensures forall t :: t in start ==> PointsInto(after[t], parties)
    ensures forall t :: t in start && Unique(start[t]) ==> (Unique(after[t]) <==> !TwoMembershipsClash(members, start[t]))
  {
    forall t | t in start
      ensures PointsInto(after[t], members.Keys) <==> PartiesAreMemberIds(members, start[t])
      ensures PointsInto(after[t], parties)
      ensures Unique(start[t]) ==> (Unique(after[t]) <==> !TwoMembershipsClash(members, start[t]))
    {
      UpgradeKeepsKeys(members, parties, start[t]);
    }
  }

  lemma DowngradeKeepsKeys(members: Members, parties: set<int>, rows: Rows)
    requires Stranded(members, rows) == {}
    ensures PointsInto(MappedBack(members, rows), parties) <==> PicksArePartyIds(members, parties, rows)
    ensures PointsInto(MappedBack(members, rows), members.Keys)
    ensures Unique(rows) ==> Unique(MappedBack(members, rows))
  {
    var back := MappedBack(members, rows);
    forall id | id in rows ensures HasMember(members, rows[id].owner) && back[id].owner == Picked(members, rows[id].owner) {
      assert id !in Stranded(members, rows);
    }
    DowngradeKeepsUnique(members, rows);
  }

  /** Where the old key stops the upgrade: party 1 is an operator without a
      membership, so the only member, 1, is party 2, and 2 is no member. */
  lemma OperatorStopsTheUpgrade()
    ensures var members: Members, rows: Rows := map[1 := Member(2, true)], map[10 := Row(1, 0, true)];
      && PointsInto(rows, members.Keys) && members[1].party in {1, 2}
      && !TwoMembershipsClash(members, rows) && !PartiesAreMemberIds(members, rows)
  {
    var members: Members, rows: Rows := map[1 := Member(2, true)], map[10 := Row(1, 0, true)];
    assert 10 in rows && rows[10].owner == 1 && members[1].party == 2;
  }

  /** And the downgrade: the one member of party 1 is number 5, and there is no
      party 5. */
  lemma HigherMemberNumberStopsTheDowngrade()
    ensures var members: Members, rows: Rows := map[5 := Member(1, true)], map[10 := Row(1, 0, true)];
      PointsInto(rows, {1}) && Stranded(members, rows) == {} && !PicksArePartyIds(members, {1}, rows)
  {
    var members: Members, rows: Rows := map[5 := Member(1, true)], map[10 := Row(1, 0, true)];
    assert members[5].party == 1;
    assert HasMember(members, 1);
    PickedIsUnique(members, 1, 5);
    assert 10 in rows && rows[10].owner == 1;
    assert forall id :: id in rows ==> HasMember(members, rows[id].owner);
  }

  /** Down and up again: once the downgrade went through, the upgrade does exactly
      when every party that owns a row has the number of a member, and then every
      table is as it was. */
  method DowngradeThenUpgrade(db: Database) returns (down: Result, up: Result)
    requires db.ByParty()
    modifies db
    ensures down.Ok? ==> (up.Ok? <==> forall t :: t in old(db.tables) ==> PointsInto(old(db.tables)[t], db.members.Keys))
    ensures down.Ok? && up.Ok? ==> db.tables == old(db.tables)
    ensures down.Err? ==> db.tables == old(db.tables)
  {
    ghost var start := db.tables;
    down := db.Downgrade();
    if down.Err? { return down, down; }
    forall t | t in start
      ensures Repointed(db.members, db.tables[t]) == start[t]
      ensures PartiesAreMemberIds(db.members, db.tables[t]) <==> PointsInto(start[t], db.members.Keys)
      ensures Unique(start[t]) ==> !TwoMembershipsClash(db.members, db.tables[t])
    {
      UpgradeUndoesDowngrade(db.members, start[t]);
      DowngradeKeepsUnique(db.members, start[t]);
      UpgradeKeepsKeys(db.members, db.parties, db.tables[t]);
    }
    up := db.Upgrade();
  }

  /** Why the old index goes before the remap: member and party numbers overlap,
      so between two row updates a new value can equal a row's old one, although
      neither the table before nor the table after has a duplicate. */
  lemma IndexWouldClashMidway()
    ensures exists members: Members, rows: Rows, first: int ::
      && first in rows && rows[first].owner in members
      && Unique(rows) && Unique(Repointed(members, rows))
      && !Unique(rows[first := ToParty(members, rows[first])])
  {
    var members: Members := map[1 := Member(2, true), 2 := Member(1, true)];
    var rows: Rows := map[10 := Row(1, 0, true), 11 := Row(2, 0, true)];
    var midway := rows[10 := ToParty(members, rows[10])];
    assert Clash(midway, 10, 11);
    assert Unique(rows) && Unique(Repointed(members, rows)) && !Unique(midway);
  }
}
