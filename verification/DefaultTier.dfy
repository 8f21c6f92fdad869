/** Giving the membership tiers their one default: the first free tier is
    promoted, or a new one is inserted under a name nobody holds. */
module DefaultTier {
  import opened Common
  import Decimal

  /** A row of `membership_types`; the price is in cents. */
  datatype Tier = Tier(id: int, name: string, slug: string, basePrice: Option<int>,
                       isActive: Option<bool>, displayOrder: Option<int>, isDefault: bool)

  const FALLBACK_NAME := "Registered"
  const FALLBACK_SLUG := "registered"

  /** `coalesce(base_price, 0) = 0` */
  predicate Free(t: Tier) {
    t.basePrice.None? || t.basePrice.value == 0
  }

  // ---- Which free tier ----

  /** DESC NULLS LAST */
  function ActiveRank(a: Option<bool>): nat {
    if a == Some(true) then 0 else if a == Some(false) then 1 else 2
  }

  /** Ascending, NULLS LAST */
  predicate OrderBefore(a: Option<int>, b: Option<int>) {
    a.Some? && (b.None? || a.value < b.value)
  }

  predicate Before(a: Tier, b: Tier) {
    if ActiveRank(a.isActive) != ActiveRank(b.isActive) then ActiveRank(a.isActive) < ActiveRank(b.isActive)
    else if a.displayOrder != b.displayOrder then OrderBefore(a.displayOrder, b.displayOrder)
    else a.id < b.id
  }

  predicate UniqueIds(rows: seq<Tier>) {
    forall i, j :: 0 <= i < j < |rows| ==> rows[i].id != rows[j].id
  }

  /** `id` is that of the free tier before all other free tiers. */
  predicate IsFirstFree(rows: seq<Tier>, id: int) {
    exists i :: 0 <= i < |rows| && rows[i].id == id && Free(rows[i])
      && forall j :: 0 <= j < |rows| && j != i && Free(rows[j]) ==> Before(rows[i], rows[j])
  }

  predicate HasFree(rows: seq<Tier>) {
    exists i :: 0 <= i < |rows| && Free(rows[i])
  }

  predicate SomePriceIsNothing(rows: seq<Tier>) {
    exists i :: 0 <= i < |rows| && (rows[i].basePrice == None || rows[i].basePrice == Some(0))
  }

  lemma HasFreeMeans(rows: seq<Tier>)
    ensures HasFree(rows) <==> SomePriceIsNothing(rows)
  {
    assert forall i :: 0 <= i < |rows| ==> (Free(rows[i]) <==> rows[i].basePrice == None || rows[i].basePrice == Some(0));
  }

  method FirstFree(rows: seq<Tier>) returns (id: Option<int>)
    requires UniqueIds(rows)
    ensures id.Some? ==> IsFirstFree(rows, id.value)
    ensures id.None? <==> !HasFree(rows)
  {
    var best: Option<nat> := None;
    for i := 0 to |rows|
      invariant best.None? ==> forall j :: 0 <= j < i ==> !Free(rows[j])
      invariant best.Some? ==> best.value < i && Free(rows[best.value])
      invariant forall j :: best.Some? && 0 <= j < i && j != best.value && Free(rows[j]) ==> Before(rows[best.value], rows[j])
    {
      if Free(rows[i]) && (best.None? || Before(rows[i], rows[best.value])) {
        best := Some(i);
      }
    }
    id := if best.None? then None else Some(rows[best.value].id);
  }

  /** An inactive tier is promoted only if no active one is free; within that, one
      without a place in the display order only if none has one; ties go to the
      older row. */
  lemma PromotedComesFirst(rows: seq<Tier>, t: Tier, other: Tier)
    requires UniqueIds(rows) && t in rows && IsFirstFree(rows, t.id) && other in rows && Free(other) && other != t
    ensures other.isActive == Some(true) ==> t.isActive == Some(true)
    ensures other.isActive == Some(false) ==> t.isActive.Some?
    ensures other.isActive == t.isActive && other.displayOrder.Some? ==> t.displayOrder.Some? && t.displayOrder.value <= other.displayOrder.value
    ensures other.isActive == t.isActive && other.displayOrder == t.displayOrder ==> t.id < other.id
  {
    var i :| 0 <= i < |rows| && rows[i].id == t.id && Free(rows[i])
      && forall j :: 0 <= j < |rows| && j != i && Free(rows[j]) ==> Before(rows[i], rows[j]);
    var k :| 0 <= k < |rows| && rows[k] == t;
    assert i == k;
    assert Before(t, other);
  }

  /** Every replica of the same table promotes the same tier, whatever order its
      rows come in. */
  lemma ReplicasAgree(rows: seq<Tier>, replica: seq<Tier>, id: int, other: int)
    requires UniqueIds(rows) && UniqueIds(replica)
    requires forall t :: t in rows <==> t in replica
    requires IsFirstFree(rows, id) && IsFirstFree(replica, other)
    ensures id == other
  {
    var i :| 0 <= i < |rows| && rows[i].id == id && Free(rows[i])
      && forall j :: 0 <= j < |rows| && j != i && Free(rows[j]) ==> Before(rows[i], rows[j]);
    var k :| 0 <= k < |replica| && replica[k].id == other && Free(replica[k])
      && forall j :: 0 <= j < |replica| && j != k && Free(replica[j]) ==> Before(replica[k], replica[j]);
    var a, b := rows[i], replica[k];
    assert a in replica && b in rows;
    assert a == b || Before(a, b);
    assert a == b || Before(b, a);
  }

  // ---- A name nobody holds ----

  function NameOf(suffix: nat): string {
    if suffix <= 1 then FALLBACK_NAME else FALLBACK_NAME + " " + Decimal.Format(suffix)
  }

  function SlugOf(suffix: nat): string {
    if suffix <= 1 then FALLBACK_SLUG else FALLBACK_SLUG + "-" + Decimal.Format(suffix)
  }

  predicate Holds(t: Tier, suffix: nat) {
    t.name == NameOf(suffix) || t.slug == SlugOf(suffix)
  }

  predicate Taken(rows: seq<Tier>, suffix: nat) {
    exists i :: 0 <= i < |rows| && Holds(rows[i], suffix)
  }

  lemma NamesDiffer(a: nat, b: nat)
    requires 1 <= a && 1 <= b && (NameOf(a) == NameOf(b) || SlugOf(a) == SlugOf(b))
    ensures a == b
  {
    Decimal.ParseFormat(a);
    Decimal.ParseFormat(b);
    var name, slug := |FALLBACK_NAME + " "|, |FALLBACK_SLUG + "-"|;
    if a > 1 && b > 1 {
      assert NameOf(a)[name..] == Decimal.Format(a) && NameOf(b)[name..] == Decimal.Format(b);
      assert SlugOf(a)[slug..] == Decimal.Format(a) && SlugOf(b)[slug..] == Decimal.Format(b);
    }
  }

  /** The suffixes up to `limit` that one tier stands in the way of: one by its
      name and one by its slug at most. */
  function HeldUpTo(t: Tier, limit: nat): set<nat> {
    set s: nat | 1 <= s <= limit && Holds(t, s)
  }

  lemma HoldsAtMostTwo(t: Tier, limit: nat)
    ensures |HeldUpTo(t, limit)| <= 2
  {
    var byName := set s: nat | 1 <= s <= limit && t.name == NameOf(s);
    var bySlug := set s: nat | 1 <= s <= limit && t.slug == SlugOf(s);
    forall a, b | a in byName && b in byName ensures a == b { NamesDiffer(a, b); }
    forall a, b | a in bySlug && b in bySlug ensures a == b { NamesDiffer(a, b); }
    AtMostOne(byName);
    AtMostOne(bySlug);
    assert HeldUpTo(t, limit) == byName + bySlug;
  }

  lemma AtMostOne(s: set<nat>)
    requires forall a, b :: a in s && b in s ==> a == b
    ensures |s| <= 1
  {
    if s != {} {
      var x := SomeElement(s);
      assert s == {x};
    }
  }

  function TakenUpTo(rows: seq<Tier>, limit: nat): set<nat> {
    if rows == [] then {} else HeldUpTo(rows[0], limit) + TakenUpTo(rows[1..], limit)
  }

  lemma {:induction false} TiersBlockTwoEach(rows: seq<Tier>, limit: nat)
    ensures |TakenUpTo(rows, limit)| <= 2 * |rows|
    ensures forall s: nat :: 1 <= s <= limit && Taken(rows, s) ==> s in TakenUpTo(rows, limit)
  {
    if rows != [] {
      HoldsAtMostTwo(rows[0], limit);
      TiersBlockTwoEach(rows[1..], limit);
      var rest := TakenUpTo(rows[1..], limit);
      assert |HeldUpTo(rows[0], limit) + rest| <= |HeldUpTo(rows[0], limit)| + |rest|;
      forall s: nat | 1 <= s <= limit && Taken(rows, s) ensures s in TakenUpTo(rows, limit) {
        var i :| 0 <= i < |rows| && Holds(rows[i], s);
        assert i > 0 ==> rows[1..][i - 1] == rows[i];
        assert i > 0 ==> Taken(rows[1..], s);
      }
    }
  }

  lemma {:induction false} CountUpTo(limit: nat, within: set<nat>)
    requires forall s: nat :: 1 <= s <= limit ==> s in within
    ensures limit <= |within|
  {
    if limit > 0 {
      CountUpTo(limit - 1, within - {limit});
    }
  }

  /** `n` tiers cannot stand in the way of more than `2 * n` suffixes in a row. */
  lemma RunOfTakenIsShort(rows: seq<Tier>, limit: nat)
    requires forall s: nat :: 1 <= s <= limit ==> Taken(rows, s)
    ensures limit <= 2 * |rows|
  {
    TiersBlockTwoEach(rows, limit);
    CountUpTo(limit, TakenUpTo(rows, limit));
  }

  function Blocker(i: nat): Tier {
    Tier(i, NameOf(2 * i + 1), SlugOf(2 * i + 2), Some(100), Some(true), None, false)
  }

  function Crowd(n: nat): (r: seq<Tier>)
    ensures |r| == n && forall i :: 0 <= i < n ==> r[i] == Blocker(i)
  {
    seq(n, i requires 0 <= i < n => Blocker(i))
  }

  /** And `n` tiers can stand in the way of that many. */
  lemma CrowdTakesTwoEach(n: nat, s: nat)
    requires 1 <= s <= 2 * n
    ensures UniqueIds(Crowd(n)) && NoDefault(Crowd(n)) && !HasFree(Crowd(n)) && Taken(Crowd(n), s)
  {
    var i: nat := (s - 1) / 2;
    assert Crowd(n)[i] == Blocker(i);
    assert s == 2 * i + 1 || s == 2 * i + 2;
    assert Holds(Blocker(i), s);
  }

  // ---- The migration ----

  /** The UPDATE, with the subquery's answer. */
  function Promoted(rows: seq<Tier>, id: int): (r: seq<Tier>)
    ensures |r| == |rows| && forall i :: 0 <= i < |rows| ==> r[i] == if rows[i].id == id then rows[i].(isDefault := true) else rows[i]
  {
    seq(|rows|, i requires 0 <= i < |rows| => if rows[i].id == id then rows[i].(isDefault := true) else rows[i])
  }

  function Inserted(id: int, suffix: nat): Tier {
    Tier(id, NameOf(suffix), SlugOf(suffix), Some(0), Some(true), Some(0), true)
  }

  predicate NoDefault(rows: seq<Tier>) {
    forall i :: 0 <= i < |rows| ==> !rows[i].isDefault
  }

  /** The index and the check constraint the migration adds, and a default. */
  predicate OneFreeDefault(rows: seq<Tier>) {
    exists i :: 0 <= i < |rows| && rows[i].isDefault && Free(rows[i])
      && forall j :: 0 <= j < |rows| && j != i ==> !rows[j].isDefault
  }

  /** What is inserted: a free, active tier, first in the display order, called
      Registered, and numbered from the second attempt on. */
  lemma InsertedMeans(id: int, suffix: nat)
    ensures var t := Inserted(id, suffix);
      && t.id == id && t.isDefault && t.isActive == Some(true) && t.basePrice == Some(0) && t.displayOrder == Some(0)
      && (suffix <= 1 ==> t.name == "Registered" && t.slug == "registered")
      && (suffix > 1 ==> t.name == "Registered " + Decimal.Format(suffix) && t.slug == "registered-" + Decimal.Format(suffix))
  {
    if suffix > 1 {
      assert FALLBACK_NAME + " " == "Registered ";
      assert FALLBACK_SLUG + "-" == "registered-";
    }
  }

  lemma PromotionLeavesOneDefault(rows: seq<Tier>, id: int)
    requires UniqueIds(rows) && NoDefault(rows) && IsFirstFree(rows, id)
    ensures OneFreeDefault(Promoted(rows, id)) && UniqueIds(Promoted(rows, id))
  {
    var i :| 0 <= i < |rows| && rows[i].id == id && Free(rows[i]);
    assert Promoted(rows, id)[i].isDefault;
  }

  lemma InsertionLeavesOneDefault(rows: seq<Tier>, id: int, suffix: nat)
    requires NoDefault(rows)
    ensures OneFreeDefault(rows + [Inserted(id, suffix)])
  {
    assert (rows + [Inserted(id, suffix)])[|rows|].isDefault;
  }

  class Tiers {
    var rows: seq<Tier>

    constructor (rows: seq<Tier>)
      ensures this.rows == rows
    {
      this.rows := rows;
    }

    /** Returns how many times the fresh-name query ran. */
    method Upgrade(newId: int) returns (checks: nat)
      requires UniqueIds(rows) && NoDefault(rows)
      modifies this
      ensures OneFreeDefault(rows)
      ensures |rows| == |old(rows)| <==> SomePriceIsNothing(old(rows))
      ensures forall i :: 0 <= i < |rows| && rows[i].isDefault ==> rows[i].basePrice == None || rows[i].basePrice == Some(0)
      ensures if HasFree(old(rows)) then checks == 0 && exists id :: IsFirstFree(old(rows), id) && rows == Promoted(old(rows), id)
              else 1 <= checks <= 2 * |old(rows)| + 1 && rows == old(rows) + [Inserted(newId, checks)]
                   && !Taken(old(rows), checks) && forall s: nat :: 1 <= s < checks ==> Taken(old(rows), s)
    {
      HasFreeMeans(rows);
      var promoted := FirstFree(rows);
      if promoted.Some? {
        PromotionLeavesOneDefault(rows, promoted.value);
        rows := Promoted(rows, promoted.value);
        return 0;
      }
      checks := FreshSuffix();
      InsertionLeavesOneDefault(rows, newId, checks);
      rows := rows + [Inserted(newId, checks)];
    }

    /** The loop that looks for a name and a slug nobody holds. */
    method FreshSuffix() returns (suffix: nat)
      ensures 1 <= suffix <= 2 * |rows| + 1
      ensures !Taken(rows, suffix) && forall s: nat :: 1 <= s < suffix ==> Taken(rows, s)
    {
      var name, slug := FALLBACK_NAME, FALLBACK_SLUG;
      suffix := 1;
      while exists i :: 0 <= i < |rows| && (rows[i].name == name || rows[i].slug == slug)
        invariant 1 <= suffix <= 2 * |rows| + 1 && name == NameOf(suffix) && slug == SlugOf(suffix)
        invariant forall s: nat :: 1 <= s < suffix ==> Taken(rows, s)
        decreases 2 * |rows| + 1 - suffix
      {
        assert Taken(rows, suffix);
        RunOfTakenIsShort(rows, suffix);
        suffix := suffix + 1;
        name, slug := FALLBACK_NAME + " " + Decimal.Format(suffix), FALLBACK_SLUG + "-" + Decimal.Format(suffix);
      }
      assert forall i :: 0 <= i < |rows| ==> !Holds(rows[i], suffix);
    }
  }
}
