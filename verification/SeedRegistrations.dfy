/** The demo registrations: which rows the nested loops insert, and the four
    kinds of counter they keep beside them. */
module SeedRegistrations {
  import opened Common

  datatype Price = Price(id: int, isDefault: bool)

  /** A published activity with its active prices and active modalities. */
  datatype Activity = Activity(id: int, name: string, maxParticipants: nat, waitingList: bool,
                               prices: seq<Price>, modalities: seq<int>)

  datatype Member = Member(id: int, party: int)

  datatype Status = Confirmed | Waitlist | Cancelled

  datatype Registration = Registration(activity: int, party: int, modality: Option<int>, price: int, status: Status)

  /** The registrations in the order they were inserted, the last one outermost. */
  datatype Table = Empty | Insert(earlier: Table, last: Registration)

  /** A nullable counter column by row id. */
  type Counter = map<int, int>

  function Value(c: Counter, id: int): int {
    if id in c then c[id] else 0
  }

  function Bump(c: Counter, id: int): Counter {
    c[id := Value(c, id) + 1]
  }

  /** The tables, and the two locals the loops carry. */
  datatype State = State(rows: Table, participants: Counter, waitlisted: Counter,
                         byModality: Counter, byPrice: Counter, cancelledOne: bool, testRows: nat)

  const TEST_MEMBER_CAP := 3

  predicate KeptFreeForTests(name: string) {
    name == "Summer Soccer Camp" || name == "Chess Club Tournament"
  }

  // ---- One turn of the inner loop ----

  predicate IsDefaultPrice(prices: seq<Price>, k: nat) {
    && k < |prices| && (forall j :: 0 <= j < k ==> !prices[j].isDefault)
    && (prices[k].isDefault || (k == 0 && forall q :: q in prices ==> !q.isDefault))
  }

  /** The first price marked default, else the first. */
  function DefaultPrice(prices: seq<Price>): (p: Price)
    requires prices != []
    ensures p in prices && exists k: nat :: IsDefaultPrice(prices, k) && prices[k] == p
  {
    FirstDefault(prices, 0)
  }

  function FirstDefault(prices: seq<Price>, k: nat): (p: Price)
    requires prices != [] && k <= |prices| && forall j :: 0 <= j < k ==> !prices[j].isDefault
    ensures exists i: nat :: IsDefaultPrice(prices, i) && prices[i] == p
    decreases |prices| - k
  {
    if k == |prices| then
      assert IsDefaultPrice(prices, 0);
      prices[0]
    else if prices[k].isDefault then
      assert IsDefaultPrice(prices, k);
      prices[k]
    else FirstDefault(prices, k + 1)
  }

  function StatusAt(i: nat, n: nat, waitingList: bool, cancelledOne: bool): Status {
    if i == n - 1 && waitingList then Waitlist
    else if !cancelledOne && i == n - 2 && n >= 3 then Cancelled
    else Confirmed
  }

  predicate Registered(rows: Table, activity: int, party: int) {
    match rows
    case Empty => false
    case Insert(earlier, r) => (r.activity == activity && r.party == party) || Registered(earlier, activity, party)
  }

  predicate IsTest(m: Member, test: Option<Member>) {
    test.Some? && m.id == test.value.id
  }

  predicate Skipped(s: State, a: Activity, m: Member, test: Option<Member>) {
    || (IsTest(m, test) && (s.testRows >= TEST_MEMBER_CAP || KeptFreeForTests(a.name)))
    || Registered(s.rows, a.id, m.party)
  }

  function RowOf(a: Activity, i: nat, m: Member, status: Status): Registration
    requires a.prices != []
  {
    Registration(a.id, m.party, if a.modalities == [] then None else Some(a.modalities[i % |a.modalities|]),
                 DefaultPrice(a.prices).id, status)
  }

  /** The row goes in, and the counters its status calls for go up. */
  function Inserted(s: State, r: Registration, isTest: bool): State {
    var confirmed := r.status == Confirmed;
    State(Insert(s.rows, r),
          if confirmed then Bump(s.participants, r.activity) else s.participants,
          if r.status == Waitlist then Bump(s.waitlisted, r.activity) else s.waitlisted,
          if confirmed && r.modality.Some? then Bump(s.byModality, r.modality.value) else s.byModality,
          if confirmed then Bump(s.byPrice, r.price) else s.byPrice,
          s.cancelledOne || r.status == Cancelled,
          if isTest && r.status != Cancelled then s.testRows + 1 else s.testRows)
  }

  function Turn(s: State, a: Activity, i: nat, n: nat, m: Member, test: Option<Member>): State
    requires a.prices != []
  {
    if Skipped(s, a, m, test) then s
    else Inserted(s, RowOf(a, i, m, StatusAt(i, n, a.waitingList, s.cancelledOne)), IsTest(m, test))
  }

  // ---- The loops ----

  function Min(a: nat, b: nat): nat {
    if a < b then a else b
  }

  function Listed(a: Activity, members: seq<Member>): (r: seq<Member>)
    ensures |r| <= a.maxParticipants && |r| <= 10 && r <= members
  {
    members[..Min(|members|, Min(a.maxParticipants, 10))]
  }

  function Turns(s: State, a: Activity, listed: seq<Member>, test: Option<Member>, i: nat): State
    requires a.prices != [] && i <= |listed|
  {
    if i == 0 then s
    else Turn(Turns(s, a, listed, test, i - 1), a, i - 1, |listed|, listed[i - 1], test)
  }

  function Round(s: State, a: Activity, members: seq<Member>, test: Option<Member>): State {
    if a.prices == [] then s
    else Turns(s, a, Listed(a, members), test, |Listed(a, members)|)
  }

  function Rounds(s: State, activities: seq<Activity>, members: seq<Member>, test: Option<Member>, k: nat): State
    requires k <= |activities|
  {
    if k == 0 then s else Round(Rounds(s, activities, members, test, k - 1), activities[k - 1], members, test)
  }

  class Seed {
    var rows: Table
    var participants: Counter
    var waitlisted: Counter
    var byModality: Counter
    var byPrice: Counter

    constructor (s: State)
      ensures View(s.cancelledOne, s.testRows) == s
    {
      rows, participants, waitlisted, byModality, byPrice := s.rows, s.participants, s.waitlisted, s.byModality, s.byPrice;
    }

    function View(cancelledOne: bool, testRows: nat): State
      reads this
    {
      State(rows, participants, waitlisted, byModality, byPrice, cancelledOne, testRows)
    }

    method SeedRegistrations(activities: seq<Activity>, members: seq<Member>, test: Option<Member>)
      returns (cancelledOne: bool, testRows: nat)
      modifies this
      ensures View(cancelledOne, testRows) ==
        if old(rows).Insert? || |activities| < 2 || |members| < 3 then old(View(false, 0))
        else Rounds(old(View(false, 0)), activities, members, test, |activities|)
    {
      cancelledOne, testRows := false, 0;
      if rows.Insert? || |activities| < 2 || |members| < 3 { return; }
      for k := 0 to |activities|
        invariant View(cancelledOne, testRows) == Rounds(old(View(false, 0)), activities, members, test, k)
      {
        var a := activities[k];
        if a.prices != [] {
          cancelledOne, testRows := RegisterSome(a, Listed(a, members), test, cancelledOne, testRows);
        }
      }
    }

    /** The inner loop. */
    method RegisterSome(a: Activity, listed: seq<Member>, test: Option<Member>, cancelledBefore: bool, testBefore: nat)
      returns (cancelledOne: bool, testRows: nat)
      requires a.prices != []
      modifies this
      ensures View(cancelledOne, testRows) == Turns(old(View(cancelledBefore, testBefore)), a, listed, test, |listed|)
    {
      cancelledOne, testRows := cancelledBefore, testBefore;
      ghost var start := View(cancelledOne, testRows);
      for i := 0 to |listed|
        invariant View(cancelledOne, testRows) == Turns(start, a, listed, test, i)
      {
        cancelledOne, testRows := RegisterOne(a, i, |listed|, listed[i], test, cancelledOne, testRows);
      }
    }

    /** The body of the inner loop. */
    method RegisterOne(a: Activity, i: nat, n: nat, m: Member, test: Option<Member>, cancelledBefore: bool, testBefore: nat)
      returns (cancelledOne: bool, testRows: nat)
      requires a.prices != []
      modifies this
      ensures View(cancelledOne, testRows) == Turn(old(View(cancelledBefore, testBefore)), a, i, n, m, test)
    {
      cancelledOne, testRows := cancelledBefore, testBefore;
      if IsTest(m, test) && (testRows >= TEST_MEMBER_CAP || KeptFreeForTests(a.name)) { return; }
      if Registered(rows, a.id, m.party) { return; }
      var modality := if a.modalities == [] then None else Some(a.modalities[i % |a.modalities|]);
      var status;
      if i == n - 1 && a.waitingList {
        status := Waitlist;
      } else if !cancelledOne && i == n - 2 && n >= 3 {
        status := Cancelled;
        cancelledOne := true;
      } else {
        status := Confirmed;
      }
      var r := Registration(a.id, m.party, modality, DefaultPrice(a.prices).id, status);
      AddRow(r, cancelledBefore, testBefore, IsTest(m, test));
      if IsTest(m, test) && status != Cancelled { testRows := testRows + 1; }
    }

    /** The row and its counters. */
    method AddRow(r: Registration, ghost cancelledOne: bool, ghost testRows: nat, ghost isTest: bool)
      modifies this
      ensures var t := Inserted(old(View(cancelledOne, testRows)), r, isTest); View(t.cancelledOne, t.testRows) == t
    {
      rows := Insert(rows, r);
      if r.status == Confirmed {
        participants := Bump(participants, r.activity);
        if r.modality.Some? { byModality := Bump(byModality, r.modality.value); }
        byPrice := Bump(byPrice, r.price);
      } else if r.status == Waitlist {
        waitlisted := Bump(waitlisted, r.activity);
      }
    }
  }

  // ---- Counting rows ----

  datatype Query =
    | InActivity(activity: int, status: Status)
    | InModality(modality: int)
    | AtPrice(price: int)
    | AnyCancelled
    | LiveOf(party: int)

  predicate Fits(r: Registration, q: Query) {
    match q
    case InActivity(a, status) => r.activity == a && r.status == status
    case InModality(m) => r.modality == Some(m) && r.status == Confirmed
    case AtPrice(p) => r.price == p && r.status == Confirmed
    case AnyCancelled => r.status == Cancelled
    case LiveOf(party) => r.party == party && r.status != Cancelled
  }

  function Count(rows: Table, q: Query): nat {
    match rows
    case Empty => 0
    case Insert(earlier, r) => Count(earlier, q) + if Fits(r, q) then 1 else 0
  }

  // ---- What every turn keeps ----

  /** What the counters of a row id hold beyond the rows they count. */
  datatype Ledger = Ledger(participants: int, waitlisted: int, byModality: int, byPrice: int)

  function Beyond(s: State, id: int): Ledger {
    Ledger(Value(s.participants, id) - Count(s.rows, InActivity(id, Confirmed)),
           Value(s.waitlisted, id) - Count(s.rows, InActivity(id, Waitlist)),
           Value(s.byModality, id) - Count(s.rows, InModality(id)),
           Value(s.byPrice, id) - Count(s.rows, AtPrice(id)))
  }

  lemma InsertedBalances(s: State, r: Registration, isTest: bool, id: int)
    ensures Beyond(Inserted(s, r, isTest), id) == Beyond(s, id)
  {
  }

  predicate NobodyTwice(rows: Table) {
    rows.Insert? ==> NobodyTwice(rows.earlier) && !Registered(rows.earlier, rows.last.activity, rows.last.party)
  }

  /** No party twice in one activity, and one cancelled row at most. */
  predicate Sound(s: State) {
    NobodyTwice(s.rows) && Count(s.rows, AnyCancelled) == if s.cancelledOne then 1 else 0
  }

  lemma TurnIsSound(s: State, a: Activity, i: nat, n: nat, m: Member, test: Option<Member>)
    requires a.prices != [] && Sound(s)
    ensures Sound(Turn(s, a, i, n, m, test))
  {
  }

  /** The test member's live rows are counted, and capped. */
  predicate Capped(s: State, test: Member) {
    Count(s.rows, LiveOf(test.party)) == s.testRows <= TEST_MEMBER_CAP
  }

  /** No other member listed is the same person. */
  predicate Alone(members: seq<Member>, test: Member) {
    forall i :: 0 <= i < |members| ==> (members[i].id == test.id <==> members[i].party == test.party)
  }

  lemma TurnIsCapped(s: State, a: Activity, i: nat, n: nat, m: Member, test: Member)
    requires a.prices != [] && Capped(s, test) && (m.id == test.id <==> m.party == test.party)
    ensures Capped(Turn(s, a, i, n, m, Some(test)), test)
  {
  }

  /** Every row carries its activity's default price and one of its modalities. */
  predicate Belongs(r: Registration, activities: seq<Activity>) {
    exists k :: 0 <= k < |activities| && OfActivity(r, activities[k])
  }

  predicate OfActivity(r: Registration, a: Activity) {
    && a.prices != [] && r.activity == a.id && r.price == DefaultPrice(a.prices).id
    && if a.modalities == [] then r.modality == None else r.modality.Some? && r.modality.value in a.modalities
  }

  predicate AllBelong(rows: Table, activities: seq<Activity>) {
    rows.Insert? ==> AllBelong(rows.earlier, activities) && Belongs(rows.last, activities)
  }

  /** Counters and rows move together. */
  lemma {:induction false} TurnsBalance(s: State, a: Activity, listed: seq<Member>, test: Option<Member>, i: nat, id: int)
    requires a.prices != [] && i <= |listed|
    ensures Beyond(Turns(s, a, listed, test, i), id) == Beyond(s, id)
  {
    if i > 0 {
      TurnsBalance(s, a, listed, test, i - 1, id);
      var before, m := Turns(s, a, listed, test, i - 1), listed[i - 1];
      InsertedBalances(before, RowOf(a, i - 1, m, StatusAt(i - 1, |listed|, a.waitingList, before.cancelledOne)), IsTest(m, test), id);
    }
  }

  lemma {:induction false} TurnsAreSound(s: State, a: Activity, listed: seq<Member>, test: Option<Member>, i: nat)
    requires a.prices != [] && i <= |listed| && Sound(s)
    ensures Sound(Turns(s, a, listed, test, i))
  {
    if i > 0 {
      TurnsAreSound(s, a, listed, test, i - 1);
      TurnIsSound(Turns(s, a, listed, test, i - 1), a, i - 1, |listed|, listed[i - 1], test);
    }
  }

  lemma {:induction false} TurnsAreCapped(s: State, a: Activity, listed: seq<Member>, test: Member, i: nat)
    requires a.prices != [] && i <= |listed| && Alone(listed, test) && Capped(s, test)
    ensures Capped(Turns(s, a, listed, Some(test), i), test)
  {
    if i > 0 {
      TurnsAreCapped(s, a, listed, test, i - 1);
      TurnIsCapped(Turns(s, a, listed, Some(test), i - 1), a, i - 1, |listed|, listed[i - 1], test);
    }
  }

  /** A turn inserts a row of its own activity, if any. */
  lemma TurnFills(s: State, a: Activity, i: nat, n: nat, m: Member, test: Option<Member>, activities: seq<Activity>, other: int)
    requires a.prices != [] && a in activities && AllBelong(s.rows, activities)
    ensures var t := Turn(s, a, i, n, m, test); var q := InActivity(other, Confirmed);
      AllBelong(t.rows, activities) && Count(t.rows, q) <= Count(s.rows, q) + if other == a.id then 1 else 0
  {
    var status := StatusAt(i, n, a.waitingList, s.cancelledOne);
    RowBelongs(a, i, m, status, activities);
  }

  lemma {:induction false} TurnsFill(s: State, a: Activity, listed: seq<Member>, test: Option<Member>, i: nat,
                                     activities: seq<Activity>, other: int)
    requires a.prices != [] && i <= |listed| && a in activities && AllBelong(s.rows, activities)
    ensures var t := Turns(s, a, listed, test, i); var q := InActivity(other, Confirmed);
      AllBelong(t.rows, activities) && Count(t.rows, q) <= Count(s.rows, q) + if other == a.id then i else 0
  {
    if i > 0 {
      TurnsFill(s, a, listed, test, i - 1, activities, other);
      TurnFills(Turns(s, a, listed, test, i - 1), a, i - 1, |listed|, listed[i - 1], test, activities, other);
    }
  }

  predicate DifferentParties(listed: seq<Member>) {
    forall i, j :: 0 <= i < j < |listed| ==> listed[i].party != listed[j].party
  }

  /** The rows of one round of `n` members, all of them registered: the last one
      waits if there is a waiting list, the second last of three or more is
      cancelled if nobody was before, and everybody else is confirmed. */
  lemma {:induction false} FullRound(s: State, a: Activity, listed: seq<Member>, i: nat)
    requires a.prices != [] && i <= |listed| && DifferentParties(listed)
    requires forall j :: 0 <= j < |listed| ==> !Registered(s.rows, a.id, listed[j].party)
    ensures var n := |listed|; var t := Turns(s, a, listed, None, i);
      var waits := if a.waitingList && i == n > 0 then 1 else 0;
      var cancels := if !s.cancelledOne && n >= 3 && i >= n - 1 then 1 else 0;
      && Count(t.rows, InActivity(a.id, Waitlist)) == Count(s.rows, InActivity(a.id, Waitlist)) + waits
      && Count(t.rows, InActivity(a.id, Cancelled)) == Count(s.rows, InActivity(a.id, Cancelled)) + cancels
      && Count(t.rows, InActivity(a.id, Confirmed)) == Count(s.rows, InActivity(a.id, Confirmed)) + i - waits - cancels
      && t.cancelledOne == (s.cancelledOne || cancels == 1)
      && forall j :: i <= j < n ==> !Registered(t.rows, a.id, listed[j].party)
  {
    if i > 0 { FullRound(s, a, listed, i - 1); }
  }

  lemma RowBelongs(a: Activity, i: nat, m: Member, status: Status, activities: seq<Activity>)
    requires a.prices != [] && a in activities
    ensures Belongs(RowOf(a, i, m, status), activities)
  {
    var k :| 0 <= k < |activities| && activities[k] == a;
    assert OfActivity(RowOf(a, i, m, status), activities[k]);
  }

  // ---- What the whole seed leaves ----

  function Start(s: State): State {
    s.(rows := Empty, cancelledOne := false, testRows := 0)
  }

  lemma {:induction false} RoundsKeep(s: State, activities: seq<Activity>, members: seq<Member>, test: Option<Member>, k: nat, id: int)
    requires k <= |activities| && (test.Some? ==> Alone(members, test.value))
    ensures var t := Rounds(Start(s), activities, members, test, k);
      Beyond(t, id) == Beyond(Start(s), id) && Sound(t) && (test.Some? ==> Capped(t, test.value))
  {
    if k > 0 {
      RoundsKeep(s, activities, members, test, k - 1, id);
      var before, a := Rounds(Start(s), activities, members, test, k - 1), activities[k - 1];
      if a.prices != [] {
        var listed := Listed(a, members);
        TurnsBalance(before, a, listed, test, |listed|, id);
        TurnsAreSound(before, a, listed, test, |listed|);
        if test.Some? { TurnsAreCapped(before, a, listed, test.value, |listed|); }
      }
    }
  }

  predicate UniqueIds(activities: seq<Activity>) {
    forall i, j :: 0 <= i < j < |activities| ==> activities[i].id != activities[j].id
  }

  /** No activity is filled past its capacity. */
  lemma {:induction false} RoundsFill(s: State, activities: seq<Activity>, members: seq<Member>, test: Option<Member>, k: nat, j: nat)
    requires k <= |activities| && j < |activities| && UniqueIds(activities)
    ensures var t := Rounds(Start(s), activities, members, test, k);
      && AllBelong(t.rows, activities)
      && Count(t.rows, InActivity(activities[j].id, Confirmed)) <= if j < k then activities[j].maxParticipants else 0
  {
    if k > 0 {
      RoundsFill(s, activities, members, test, k - 1, j);
      var before, a := Rounds(Start(s), activities, members, test, k - 1), activities[k - 1];
      if a.prices != [] {
        TurnsFill(before, a, Listed(a, members), test, |Listed(a, members)|, activities, activities[j].id);
      }
    }
  }

  // ---- Modalities and prices add up ----

  /** Primary keys: a modality or a price belongs to one activity, once. */
  predicate OwnModalities(activities: seq<Activity>) {
    && (forall k :: 0 <= k < |activities| ==> Distinct(activities[k].modalities))
    && (forall j, k, m :: 0 <= j < |activities| && 0 <= k < |activities| && m in activities[j].modalities && m in activities[k].modalities ==> j == k)
  }

  predicate OwnPrices(activities: seq<Activity>) {
    forall j, k, p, q :: 0 <= j < |activities| && 0 <= k < |activities| && p in activities[j].prices && q in activities[k].prices && p.id == q.id ==> j == k
  }

  predicate Distinct(ids: seq<int>) {
    forall i, j :: 0 <= i < j < |ids| ==> ids[i] != ids[j]
  }

  function ModalityTotal(rows: Table, modalities: seq<int>): nat {
    if modalities == [] then 0 else Count(rows, InModality(modalities[0])) + ModalityTotal(rows, modalities[1..])
  }

  lemma {:induction false} TotalInsert(rows: Table, r: Registration, modalities: seq<int>)
    requires Distinct(modalities)
    ensures ModalityTotal(Insert(rows, r), modalities) == ModalityTotal(rows, modalities)
      + if r.status == Confirmed && r.modality.Some? && r.modality.value in modalities then 1 else 0
  {
    if modalities != [] {
      TotalInsert(rows, r, modalities[1..]);
      assert modalities == [modalities[0]] + modalities[1..];
    }
  }

  lemma {:induction false} TotalOfNone(modalities: seq<int>)
    ensures ModalityTotal(Empty, modalities) == 0
  {
    if modalities != [] { TotalOfNone(modalities[1..]); }
  }

  /** An activity's modality counters rise, together, by as much as its own; and
      its default price's by exactly as much. */
  lemma {:induction false} ShareCounts(rows: Table, activities: seq<Activity>, k: nat)
    requires k < |activities| && AllBelong(rows, activities)
    requires UniqueIds(activities) && OwnModalities(activities) && OwnPrices(activities)
    requires activities[k].prices != []
    ensures var a := activities[k];
      && (a.modalities != [] ==> ModalityTotal(rows, a.modalities) == Count(rows, InActivity(a.id, Confirmed)))
      && Count(rows, AtPrice(DefaultPrice(a.prices).id)) == Count(rows, InActivity(a.id, Confirmed))
  {
    var a := activities[k];
    match rows
    case Empty => TotalOfNone(a.modalities);
    case Insert(earlier, r) =>
      ShareCounts(earlier, activities, k);
      TotalInsert(earlier, r, a.modalities);
      RowSharesActivity(r, activities, k);
  }

  lemma SharedModality(activities: seq<Activity>, j: nat, k: nat, m: int)
    requires j < |activities| && k < |activities| && OwnModalities(activities)
    requires m in activities[j].modalities && m in activities[k].modalities
    ensures j == k
  {
  }

  lemma RowSharesActivity(r: Registration, activities: seq<Activity>, k: nat)
    requires k < |activities| && Belongs(r, activities) && activities[k].prices != []
    requires UniqueIds(activities) && OwnModalities(activities) && OwnPrices(activities)
    ensures var a := activities[k];
      && (a.modalities != [] ==> (r.activity == a.id <==> r.modality.Some? && r.modality.value in a.modalities))
      && (r.activity == a.id <==> r.price == DefaultPrice(a.prices).id)
  {
    var j :| 0 <= j < |activities| && OfActivity(r, activities[j]);
    var a, b := activities[k], activities[j];
    var p, q := DefaultPrice(a.prices), DefaultPrice(b.prices);
    assert a.id == b.id ==> j == k;
    if r.modality.Some? && r.modality.value in a.modalities {
      SharedModality(activities, j, k, r.modality.value);
    }
    assert p in activities[k].prices && q in activities[j].prices;
    assert p.id == q.id ==> j == k;
  }

  /** The seed, on an empty table with enough to register. */
  lemma SeedLeaves(s: State, activities: seq<Activity>, members: seq<Member>, test: Option<Member>, k: nat)
    requires k < |activities| && activities[k].prices != []
    requires UniqueIds(activities) && OwnModalities(activities) && OwnPrices(activities)
    requires test.Some? ==> Alone(members, test.value)
    ensures var t := Rounds(Start(s), activities, members, test, |activities|); var a := activities[k];
      var confirmed := Count(t.rows, InActivity(a.id, Confirmed));
      && Value(t.participants, a.id) == Value(s.participants, a.id) + confirmed
      && Value(t.waitlisted, a.id) == Value(s.waitlisted, a.id) + Count(t.rows, InActivity(a.id, Waitlist))
      && Value(t.byPrice, DefaultPrice(a.prices).id) == Value(s.byPrice, DefaultPrice(a.prices).id) + confirmed
      && (a.modalities != [] ==> ModalityTotal(t.rows, a.modalities) == confirmed)
      && confirmed <= a.maxParticipants
      && NobodyTwice(t.rows) && Count(t.rows, AnyCancelled) <= 1
      && (test.Some? ==> Count(t.rows, LiveOf(test.value.party)) <= TEST_MEMBER_CAP)
  {
    var t, a := Rounds(Start(s), activities, members, test, |activities|), activities[k];
    RoundsKeep(s, activities, members, test, |activities|, a.id);
    RoundsKeep(s, activities, members, test, |activities|, DefaultPrice(a.prices).id);
    RoundsFill(s, activities, members, test, |activities|, k);
    ShareCounts(t.rows, activities, k);
  }

  /** `ModalityTotal` is the sum of what the modality counters rose by. */
  lemma {:induction false} ModalityCountersRose(s: State, activities: seq<Activity>, members: seq<Member>, test: Option<Member>, modalities: seq<int>)
    requires test.Some? ==> Alone(members, test.value)
    ensures var t := Rounds(Start(s), activities, members, test, |activities|);
      Rise(s.byModality, t.byModality, modalities) == ModalityTotal(t.rows, modalities)
  {
    if modalities != [] {
      RoundsKeep(s, activities, members, test, |activities|, modalities[0]);
      ModalityCountersRose(s, activities, members, test, modalities[1..]);
    }
  }

  function Rise(before: Counter, after: Counter, ids: seq<int>): int {
    if ids == [] then 0 else Value(after, ids[0]) - Value(before, ids[0]) + Rise(before, after, ids[1..])
  }

  // ---- Who has a row, and which ----

  /** Among the first of the members, of the places and of ten. */
  predicate Within(a: Activity, members: seq<Member>, i: nat) {
    i < |members| && i < a.maxParticipants && i < 10
  }

  predicate In(rows: Table, r: Registration) {
    rows.Insert? && (rows.last == r || In(rows.earlier, r))
  }

  lemma WithinIsListed(a: Activity, members: seq<Member>, i: nat)
    ensures Within(a, members, i) <==> i < |Listed(a, members)|
    ensures i < |Listed(a, members)| ==> Listed(a, members)[i] == members[i]
  {
  }

  lemma {:induction false} TurnsAdd(s: State, a: Activity, listed: seq<Member>, test: Option<Member>, j: nat, i: nat, r: Registration)
    requires a.prices != [] && j <= i <= |listed|
    ensures var before, after := Turns(s, a, listed, test, j), Turns(s, a, listed, test, i);
      && (In(before.rows, r) ==> In(after.rows, r))
      && (Registered(before.rows, r.activity, r.party) ==> Registered(after.rows, r.activity, r.party))
      && before.testRows <= after.testRows
  {
    if j < i { TurnsAdd(s, a, listed, test, j, i - 1, r); }
  }

  lemma {:induction false} RoundsAdd(s: State, activities: seq<Activity>, members: seq<Member>, test: Option<Member>,
                                     j: nat, k: nat, r: Registration)
    requires j <= k <= |activities|
    ensures var before, after := Rounds(s, activities, members, test, j), Rounds(s, activities, members, test, k);
      && (In(before.rows, r) ==> In(after.rows, r))
      && (Registered(before.rows, r.activity, r.party) ==> Registered(after.rows, r.activity, r.party))
      && before.testRows <= after.testRows
  {
    if j < k {
      RoundsAdd(s, activities, members, test, j, k - 1, r);
      var a := activities[k - 1];
      if a.prices != [] {
        TurnsAdd(Rounds(s, activities, members, test, k - 1), a, Listed(a, members), test, 0, |Listed(a, members)|, r);
      }
    }
  }

  /** The state when the inner loop comes to member `i` of activity `k`, and after. */
  function Reaching(s: State, activities: seq<Activity>, members: seq<Member>, test: Option<Member>, k: nat, i: nat): State
    requires k < |activities| && activities[k].prices != [] && i <= |Listed(activities[k], members)|
  {
    Turns(Rounds(s, activities, members, test, k), activities[k], Listed(activities[k], members), test, i)
  }

  lemma ReachingStays(s: State, activities: seq<Activity>, members: seq<Member>, test: Option<Member>, k: nat, i: nat, r: Registration)
    requires k < |activities| && activities[k].prices != [] && i <= |Listed(activities[k], members)|
    ensures var before, after := Reaching(s, activities, members, test, k, i), Rounds(s, activities, members, test, |activities|);
      && (In(before.rows, r) ==> In(after.rows, r))
      && (Registered(before.rows, r.activity, r.party) ==> Registered(after.rows, r.activity, r.party))
      && before.testRows <= after.testRows
  {
    var a := activities[k];
    TurnsAdd(Rounds(s, activities, members, test, k), a, Listed(a, members), test, i, |Listed(a, members)|, r);
    RoundsAdd(s, activities, members, test, k + 1, |activities|, r);
  }

  /** A member who is not passed over has a row when the turn is done. */
  lemma TurnRegisters(s: State, a: Activity, i: nat, n: nat, m: Member, test: Option<Member>)
    requires a.prices != []
    requires IsTest(m, test) ==> s.testRows < TEST_MEMBER_CAP && !KeptFreeForTests(a.name)
    ensures Registered(Turn(s, a, i, n, m, test).rows, a.id, m.party)
  {
  }

  /** Every member within the limits has a row in every priced activity: anybody
      but the test member always, and the test member unless the activity is one of
      the two kept free or the three live rows are there already. */
  lemma EverybodyWithinIsRegistered(s: State, activities: seq<Activity>, members: seq<Member>, test: Option<Member>, k: nat, i: nat)
    requires k < |activities| && activities[k].prices != [] && Within(activities[k], members, i)
    requires test.Some? ==> Alone(members, test.value)
    ensures var a, rows := activities[k], Rounds(Start(s), activities, members, test, |activities|).rows;
      && (!IsTest(members[i], test) ==> Registered(rows, a.id, members[i].party))
      && (IsTest(members[i], test) ==> Registered(rows, a.id, members[i].party) || Count(rows, LiveOf(members[i].party)) == 3
                                       || a.name == "Summer Soccer Camp" || a.name == "Chess Club Tournament")
  {
    var a, m := activities[k], members[i];
    WithinIsListed(a, members, i);
    var listed := Listed(a, members);
    var before := Reaching(Start(s), activities, members, test, k, i);
    var r := RowOf(a, i, m, Confirmed);
    ReachingStays(Start(s), activities, members, test, k, i, r);
    ReachingStays(Start(s), activities, members, test, k, i + 1, r);
    RoundsKeep(s, activities, members, test, |activities|, 0);
    if !IsTest(m, test) || (before.testRows < TEST_MEMBER_CAP && !KeptFreeForTests(a.name)) {
      TurnRegisters(before, a, i, |listed|, m, test);
    }
  }

  /** Where a row can come from. */
  predicate Due(r: Registration, activities: seq<Activity>, members: seq<Member>, test: Option<Member>) {
    exists k, i :: 0 <= k < |activities| && 0 <= i < |members| && DueAt(r, activities[k], members, test, i)
  }

  predicate DueAt(r: Registration, a: Activity, members: seq<Member>, test: Option<Member>, i: nat) {
    && Within(a, members, i) && a.prices != [] && r.activity == a.id && r.party == members[i].party
    && !(IsTest(members[i], test) && (a.name == "Summer Soccer Camp" || a.name == "Chess Club Tournament"))
  }

  predicate AllDue(rows: Table, activities: seq<Activity>, members: seq<Member>, test: Option<Member>) {
    rows.Insert? ==> AllDue(rows.earlier, activities, members, test) && Due(rows.last, activities, members, test)
  }

  lemma {:induction false} TurnsAreDue(s: State, activities: seq<Activity>, k: nat, members: seq<Member>, test: Option<Member>, i: nat)
    requires k < |activities| && activities[k].prices != [] && i <= |Listed(activities[k], members)|
    requires AllDue(s.rows, activities, members, test)
    ensures AllDue(Turns(s, activities[k], Listed(activities[k], members), test, i).rows, activities, members, test)
  {
    if i > 0 {
      var a, listed := activities[k], Listed(activities[k], members);
      TurnsAreDue(s, activities, k, members, test, i - 1);
      WithinIsListed(a, members, i - 1);
      var before := Turns(s, a, listed, test, i - 1);
      if !Skipped(before, a, listed[i - 1], test) {
        var r := RowOf(a, i - 1, members[i - 1], StatusAt(i - 1, |listed|, a.waitingList, before.cancelledOne));
        assert DueAt(r, activities[k], members, test, i - 1);
        assert Due(r, activities, members, test);
      }
    }
  }

  lemma {:induction false} RoundsAreDue(s: State, activities: seq<Activity>, members: seq<Member>, test: Option<Member>, k: nat)
    requires k <= |activities|
    ensures AllDue(Rounds(Start(s), activities, members, test, k).rows, activities, members, test)
  {
    if k > 0 {
      RoundsAreDue(s, activities, members, test, k - 1);
      var a := activities[k - 1];
      if a.prices != [] {
        TurnsAreDue(Rounds(Start(s), activities, members, test, k - 1), activities, k - 1, members, test, |Listed(a, members)|);
      }
    }
  }

  lemma {:induction false} RowIsDue(rows: Table, activities: seq<Activity>, members: seq<Member>, test: Option<Member>, r: Registration)
    requires AllDue(rows, activities, members, test) && In(rows, r)
    ensures Due(r, activities, members, test)
  {
    if rows.last != r { RowIsDue(rows.earlier, activities, members, test, r); }
  }

  /** Nobody else has a row: each is of a priced activity and a member within its
      limits, and none is the test member's in an activity kept free. */
  lemma NobodyElseIsRegistered(s: State, activities: seq<Activity>, members: seq<Member>, test: Option<Member>, r: Registration)
    requires In(Rounds(Start(s), activities, members, test, |activities|).rows, r)
    ensures Due(r, activities, members, test)
  {
    RoundsAreDue(s, activities, members, test, |activities|);
    RowIsDue(Rounds(Start(s), activities, members, test, |activities|).rows, activities, members, test, r);
  }

  // ---- What stands in each row ----

  predicate Among(activities: seq<Activity>, k: nat, id: int)
    requires k <= |activities|
  {
    exists j :: 0 <= j < k && activities[j].id == id
  }

  /** A row of one of the first `k` activities is cancelled. */
  predicate CancelledIn(rows: Table, activities: seq<Activity>, k: nat)
    requires k <= |activities|
  {
    rows.Insert? &&
    (CancelledIn(rows.earlier, activities, k) || (rows.last.status == Cancelled && Among(activities, k, rows.last.activity)))
  }

  lemma {:induction false} CancelledIsCounted(rows: Table, activities: seq<Activity>, k: nat)
    requires k <= |activities| && CancelledIn(rows, activities, k)
    ensures Count(rows, AnyCancelled) > 0
    ensures forall m :: k <= m <= |activities| ==> CancelledIn(rows, activities, m)
  {
    if CancelledIn(rows.earlier, activities, k) {
      CancelledIsCounted(rows.earlier, activities, k);
    } else {
      assert forall m :: k <= m <= |activities| ==> Among(activities, m, rows.last.activity);
    }
  }

  /** A round cancels in its own activity only. */
  lemma {:induction false} TurnsCancel(s: State, a: Activity, listed: seq<Member>, test: Option<Member>, i: nat,
                                       activities: seq<Activity>, k: nat)
    requires a.prices != [] && i <= |listed| && k <= |activities|
    ensures var t := Turns(s, a, listed, test, i);
      if !Among(activities, k, a.id) then CancelledIn(t.rows, activities, k) <==> CancelledIn(s.rows, activities, k)
      else (CancelledIn(s.rows, activities, k) <==> s.cancelledOne) ==> (CancelledIn(t.rows, activities, k) <==> t.cancelledOne)
  {
    if i > 0 { TurnsCancel(s, a, listed, test, i - 1, activities, k); }
  }

  /** What the loop remembers as cancelled when it comes to activity `k` is what the
      finished table shows of the activities before. */
  lemma {:induction false} CancelledSoFar(s: State, activities: seq<Activity>, members: seq<Member>, test: Option<Member>, k: nat, m: nat)
    requires k <= m <= |activities| && UniqueIds(activities) && (test.Some? ==> Alone(members, test.value))
    ensures CancelledIn(Rounds(Start(s), activities, members, test, m).rows, activities, k)
       <==> Rounds(Start(s), activities, members, test, k).cancelledOne
    decreases m
  {
    if m > 0 {
      var before, a := Rounds(Start(s), activities, members, test, m - 1), activities[m - 1];
      if k == m {
        CancelledSoFar(s, activities, members, test, m - 1, m - 1);
        RoundsKeep(s, activities, members, test, m - 1, 0);
        if CancelledIn(before.rows, activities, m - 1) { CancelledIsCounted(before.rows, activities, m - 1); }
        if CancelledIn(before.rows, activities, m) { CancelledIsCounted(before.rows, activities, m); }
        assert Among(activities, m, activities[m - 1].id);
      } else {
        CancelledSoFar(s, activities, members, test, k, m - 1);
        assert !Among(activities, k, a.id);
      }
      if a.prices != [] { TurnsCancel(before, a, Listed(a, members), test, |Listed(a, members)|, activities, k); }
    }
  }

  lemma {:induction false} TurnsRegisterOwn(s: State, a: Activity, listed: seq<Member>, test: Option<Member>, i: nat, other: int, party: int)
    requires a.prices != [] && i <= |listed| && other != a.id
    ensures Registered(Turns(s, a, listed, test, i).rows, other, party) <==> Registered(s.rows, other, party)
  {
    if i > 0 { TurnsRegisterOwn(s, a, listed, test, i - 1, other, party); }
  }

  lemma {:induction false} NotYetRegistered(s: State, activities: seq<Activity>, members: seq<Member>, test: Option<Member>, k: nat, j: nat, party: int)
    requires k <= j < |activities| && UniqueIds(activities)
    ensures !Registered(Rounds(Start(s), activities, members, test, k).rows, activities[j].id, party)
  {
    if k > 0 {
      NotYetRegistered(s, activities, members, test, k - 1, j, party);
      var a := activities[k - 1];
      if a.prices != [] {
        TurnsRegisterOwn(Rounds(Start(s), activities, members, test, k - 1), a, Listed(a, members), test,
                         |Listed(a, members)|, activities[j].id, party);
      }
    }
  }

  /** When the inner loop comes to a member, their party has no row yet, and until
      it comes to the second last nobody was cancelled in this round. */
  lemma {:induction false} TurnsSoFar(s: State, a: Activity, listed: seq<Member>, test: Option<Member>, i: nat, j: nat)
    requires a.prices != [] && i <= j < |listed| && DifferentParties(listed) && !Registered(s.rows, a.id, listed[j].party)
    ensures !Registered(Turns(s, a, listed, test, i).rows, a.id, listed[j].party)
    ensures i + 1 < |listed| ==> Turns(s, a, listed, test, i).cancelledOne == s.cancelledOne
  {
    if i > 0 { TurnsSoFar(s, a, listed, test, i - 1, j); }
  }

  /** The last within the limits waits if the activity has a waiting list; the one
      before, of three or more, is cancelled unless somebody was in an earlier
      activity; everybody else is confirmed. */
  function DueStatus(a: Activity, members: seq<Member>, i: nat, cancelledBefore: bool): Status {
    if !Within(a, members, i + 1) && a.waitingList then Waitlist
    else if i >= 1 && Within(a, members, i + 1) && !Within(a, members, i + 2) && !cancelledBefore then Cancelled
    else Confirmed
  }

  /** The row of every member but the test member, to the last column: modalities in
      turn by position, the default price, and the status due. */
  lemma RowsAreAsDue(s: State, activities: seq<Activity>, members: seq<Member>, test: Option<Member>, k: nat, i: nat)
    requires k < |activities| && activities[k].prices != [] && Within(activities[k], members, i) && !IsTest(members[i], test)
    requires UniqueIds(activities) && DifferentParties(members) && (test.Some? ==> Alone(members, test.value))
    ensures var a, rows := activities[k], Rounds(Start(s), activities, members, test, |activities|).rows;
      In(rows, Registration(a.id, members[i].party,
                            if a.modalities == [] then None else Some(a.modalities[i % |a.modalities|]),
                            DefaultPrice(a.prices).id,
                            DueStatus(a, members, i, CancelledIn(rows, activities, k))))
  {
    var a := activities[k];
    var listed, n := Listed(a, members), |Listed(a, members)|;
    var start, before := Rounds(Start(s), activities, members, test, k), Reaching(Start(s), activities, members, test, k, i);
    WithinIsListed(a, members, i);
    WithinIsListed(a, members, i + 1);
    WithinIsListed(a, members, i + 2);
    NotYetRegistered(s, activities, members, test, k, k, members[i].party);
    TurnsSoFar(start, a, listed, test, i, i);
    CancelledSoFar(s, activities, members, test, k, |activities|);
    var r := RowOf(a, i, members[i], StatusAt(i, n, a.waitingList, before.cancelledOne));
    assert In(Reaching(Start(s), activities, members, test, k, i + 1).rows, r);
    ReachingStays(Start(s), activities, members, test, k, i + 1, r);
  }
}
