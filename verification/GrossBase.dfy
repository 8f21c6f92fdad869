/** Moving discounted receipts between net and gross form, and back, through two
    roundings.  Amounts are whole cents, percentages whole hundredths. */
module GrossBase {
  import opened Common

  // ---- Rounding ----

  /** `n / d` to the nearest integer, an exact half away from zero: the rule of
      `round_money`, and of SQL's `round`, at the precision that is stored. */
  function Round(n: int, d: int): int
    requires d != 0
  {
    var (m, e) := if d < 0 then (-n, -d) else (n, d);
    if m < 0 then -HalfUp(-m, e) else HalfUp(m, e)
  }

  function HalfUp(n: nat, d: int): int
    requires d > 0
  {
    (2 * n + d) / (2 * d)
  }

  lemma RoundBounds(n: int, d: int)
    requires n >= 0 && d > 0
    ensures 2 * (d * Round(n, d)) - d <= 2 * n < 2 * (d * Round(n, d)) + d
    ensures Round(n, d) >= 0
  {
    var r := (2 * n + d) / (2 * d);
    assert 2 * n + d == (2 * d) * r + (2 * n + d) % (2 * d);
    assert (2 * d) * r == 2 * (d * r);
  }

  /** No other integer is as close, or as far from zero at an exact half. */
  lemma RoundIsUnique(n: int, d: int, r: int)
    requires n >= 0 && d > 0 && 2 * (d * r) - d <= 2 * n < 2 * (d * r) + d
    ensures Round(n, d) == r
  {
    RoundBounds(n, d);
    Separated(d, Round(n, d), r);
    Separated(d, r, Round(n, d));
  }

  /** `r` is the integer nearest to `n / d`, the one further from zero at an exact
      half. */
  predicate RoundsTo(n: int, d: int, r: int)
    requires d > 0
  {
    if n >= 0 then 2 * (d * r) - d <= 2 * n < 2 * (d * r) + d
    else 2 * (d * r) - d < 2 * n <= 2 * (d * r) + d
  }

  /** What `round_money` decides, for charges and for credits. */
  lemma RoundIsNearest(n: int, d: int, r: int)
    requires d > 0
    ensures Round(n, d) == r <==> RoundsTo(n, d, r)
  {
    if n >= 0 {
      RoundBounds(n, d);
      if RoundsTo(n, d, r) { RoundIsUnique(n, d, r); }
    } else {
      RoundBounds(-n, d);
      assert Round(n, d) == -Round(-n, d);
      Negate(d, Round(-n, d));
      Negate(d, r);
      if RoundsTo(n, d, r) { RoundIsUnique(-n, d, -r); }
    }
  }

  lemma Negate(d: int, r: int)
    ensures d * (-r) == -(d * r)
  {
  }

  lemma Distribute(a: int, b: int, c: int)
    ensures a * (b + c) == a * b + a * c
  {
  }

  lemma NonNegative(a: int, b: int)
    requires a >= 0 && b >= 0
    ensures a * b >= 0
  {
  }

  lemma AtLeast(a: int, b: int)
    requires a >= 0 && b >= 1
    ensures a * b >= a
  {
    assert a * b == a + a * (b - 1);
    NonNegative(a, b - 1);
  }

  lemma Separated(d: int, a: int, b: int)
    requires d > 0
    ensures a < b ==> d * a + d <= d * b
  {
    if a < b {
      Distribute(d, a, b - a);
      AtLeast(d, b - a);
    }
  }

  lemma RoundGrows(n: int, m: int, d: int)
    requires 0 <= n <= m && d > 0
    ensures Round(n, d) <= Round(m, d)
  {
    RoundBounds(n, d);
    RoundBounds(m, d);
    Separated(d, Round(m, d), Round(n, d));
  }

  // ---- Rows ----

  datatype Discount = Percentage | Fixed

  /** A NULL type is treated as a fixed sum, a NULL amount as no discount. */
  datatype Receipt = Receipt(base: int, discount: Option<int>, kind: Option<Discount>)

  predicate Discounted(r: Receipt) {
    r.discount.Some? && r.discount.value > 0
  }

  predicate ByPercentage(r: Receipt) {
    r.kind == Some(Percentage)
  }

  /** The division the percentage is derived by is by the gross base. */
  predicate Divides(r: Receipt) {
    Discounted(r) && ByPercentage(r) ==> r.base + r.discount.value != 0
  }

  function UpgradeRow(r: Receipt): Receipt
    requires Divides(r)
  {
    if !Discounted(r) then r
    else
      var gross := r.base + r.discount.value;
      r.(base := gross,
         discount := if ByPercentage(r) then Some(Round(r.discount.value * 10000, gross)) else r.discount)
  }

  function DowngradeRow(r: Receipt): Receipt {
    if !Discounted(r) then r
    else
      var money := if ByPercentage(r) then Round(r.base * r.discount.value, 10000) else r.discount.value;
      r.(base := r.base - money, discount := Some(money))
  }

  // ---- The statements ----

  class Receipts {
    var rows: map<int, Receipt>

    constructor (rows: map<int, Receipt>)
      ensures this.rows == rows
    {
      this.rows := rows;
    }

    /** One UPDATE: all rows at once, or, on a division by zero, none. */
    method Upgrade() returns (ok: bool)
      modifies this
      ensures ok <==> forall id :: id in old(rows) ==> Divides(old(rows)[id])
      ensures ok ==> rows == map id | id in old(rows) :: UpgradeRow(old(rows)[id])
      ensures !ok ==> rows == old(rows)
    {
      if exists id :: id in rows && !Divides(rows[id]) { return false; }
      rows := map id | id in rows :: UpgradeRow(rows[id]);
      return true;
    }

    method Downgrade()
      modifies this
      ensures rows == map id | id in old(rows) :: DowngradeRow(old(rows)[id])
    {
      rows := map id | id in rows :: DowngradeRow(rows[id]);
    }

    /** Up and down again leaves the table as it was when no percentage row has
        a gross above 100.00. */
    method UpgradeThenDowngrade()
      requires forall id :: id in rows && Discounted(rows[id]) && ByPercentage(rows[id]) ==>
                 1 <= rows[id].base + rows[id].discount.value <= 10000
      modifies this
      ensures rows == old(rows)
    {
      ghost var before := rows;
      var ok := Upgrade();
      Downgrade();
      forall id | id in before ensures DowngradeRow(UpgradeRow(before[id])) == before[id] {
        UpgradeIsUndone(before[id]);
      }
      assert rows == before;
    }
  }

  // ---- What one row keeps ----

  function Gross(r: Receipt): int {
    if Discounted(r) then r.base + r.discount.value else r.base
  }

  function ToPercentage(gross: int, money: int): int
    requires gross != 0
  {
    Round(money * 10000, gross)
  }

  function ToMoney(gross: int, percentage: int): int {
    Round(gross * percentage, 10000)
  }

  /** Row by row, up: the base takes the discount in, and a percentage discount
      becomes its share of the new base in hundredths of a percent. */
  lemma UpgradeRowMeans(r: Receipt)
    requires Divides(r)
    ensures var u := UpgradeRow(r);
      && u.kind == r.kind
      && (r.discount.None? || r.discount.value <= 0 ==> u == r)
      && (r.discount.Some? && r.discount.value > 0 ==>
            u.base == r.base + r.discount.value && u.discount.Some?
            && (r.kind != Some(Percentage) ==> u.discount == r.discount)
            && (r.kind == Some(Percentage) && u.base > 0 ==> RoundsTo(10000 * r.discount.value, u.base, u.discount.value)))
  {
    if r.discount.Some? && r.discount.value > 0 && r.kind == Some(Percentage) {
      var gross := r.base + r.discount.value;
      if gross > 0 { RoundIsNearest(10000 * r.discount.value, gross, Round(r.discount.value * 10000, gross)); }
    }
  }

  /** And down: the base gives the discount up, a percentage as that share of it. */
  lemma DowngradeRowMeans(r: Receipt)
    ensures var d := DowngradeRow(r);
      && d.kind == r.kind
      && (r.discount.None? || r.discount.value <= 0 ==> d == r)
      && (r.discount.Some? && r.discount.value > 0 ==>
            d.discount.Some? && d.base == r.base - d.discount.value
            && (r.kind != Some(Percentage) ==> d.discount == r.discount)
            && (r.kind == Some(Percentage) ==> RoundsTo(r.base * r.discount.value, 10000, d.discount.value)))
  {
    if r.discount.Some? && r.discount.value > 0 && r.kind == Some(Percentage) {
      RoundIsNearest(r.base * r.discount.value, 10000, Round(r.base * r.discount.value, 10000));
    }
  }

  /** Discount and base always add up to the same gross: upgrading moves the
      discount onto the base, downgrading takes it off again. */
  lemma GrossIsConserved(r: Receipt)
    ensures Discounted(r) && Divides(r) ==> UpgradeRow(r).base == Gross(r)
    ensures Discounted(r) ==> DowngradeRow(r).base + DowngradeRow(r).discount.value == r.base
    ensures !Discounted(r) && Divides(r) ==> UpgradeRow(r) == r && DowngradeRow(r) == r
  {
  }

  /** With a positive gross both conversions err by at most half a unit. */
  lemma ConversionBounds(gross: int, money: int)
    requires gross > 0 && money > 0
    ensures var p := ToPercentage(gross, money);
      p >= 0 && 2 * (gross * p) - gross <= 20000 * money < 2 * (gross * p) + gross
  {
    RoundBounds(money * 10000, gross);
  }

  lemma MoneyBounds(gross: int, percentage: int)
    requires gross > 0 && percentage >= 0
    ensures var m := ToMoney(gross, percentage);
      m >= 0 && 20000 * m - 10000 <= 2 * (gross * percentage) < 20000 * m + 10000
  {
    NonNegative(gross, percentage);
    RoundBounds(gross * percentage, 10000);
  }

  /** Up to 100.00 of gross the money is recovered to the cent. */
  lemma MoneyIsRecovered(gross: int, money: int)
    requires 1 <= gross <= 10000 && money > 0
    ensures ToPercentage(gross, money) > 0 && ToMoney(gross, ToPercentage(gross, money)) == money
  {
    var p := ToPercentage(gross, money);
    ConversionBounds(gross, money);
    NonNegative(gross, p);
    RoundIsUnique(gross * p, 10000, money);
  }

  /** From 100.00 of gross on the percentage is recovered to the hundredth. */
  lemma PercentageIsRecovered(gross: int, percentage: int)
    requires gross >= 10000 && percentage > 0
    ensures ToMoney(gross, percentage) > 0 && ToPercentage(gross, ToMoney(gross, percentage)) == percentage
  {
    var m := ToMoney(gross, percentage);
    MoneyBounds(gross, percentage);
    AtLeast(gross, percentage);
    RoundIsUnique(m * 10000, gross, percentage);
  }

  lemma UpgradeIsUndone(r: Receipt)
    requires Discounted(r) && ByPercentage(r) ==> 1 <= Gross(r) <= 10000
    ensures Divides(r) && DowngradeRow(UpgradeRow(r)) == r
  {
    if Discounted(r) && ByPercentage(r) {
      MoneyIsRecovered(Gross(r), r.discount.value);
    }
  }

  lemma DowngradeIsUndone(r: Receipt)
    requires Discounted(r) && ByPercentage(r) ==> r.base >= 10000
    ensures Divides(DowngradeRow(r)) && UpgradeRow(DowngradeRow(r)) == r
  {
    if Discounted(r) && ByPercentage(r) {
      PercentageIsRecovered(r.base, r.discount.value);
    }
  }

  /** Beyond the threshold the money still moves by at most gross / 20000 and
      half a cent, whether or not the percentage rounded away to nothing. */
  lemma MoneyMovesLittle(r: Receipt)
    requires Discounted(r) && ByPercentage(r) && Gross(r) > 0
    ensures Divides(r) && DowngradeRow(UpgradeRow(r)).discount.Some?
    ensures var moved := DowngradeRow(UpgradeRow(r)).discount.value - r.discount.value;
      -(Gross(r) + 10000) <= 20000 * moved <= Gross(r) + 10000
  {
    var g, d := Gross(r), r.discount.value;
    ConversionBounds(g, d);
    MoneyBounds(g, ToPercentage(g, d));
  }

  // ---- The thresholds are exact ----

  /** A percentage discount of `money` on a gross of `gross` comes back. */
  predicate MoneySurvives(gross: int, money: int) {
    var r := Receipt(gross - money, Some(money), Some(Percentage));
    Divides(r) && DowngradeRow(UpgradeRow(r)) == r
  }

  predicate PercentageSurvives(gross: int, percentage: int) {
    var r := Receipt(gross, Some(percentage), Some(Percentage));
    Divides(DowngradeRow(r)) && UpgradeRow(DowngradeRow(r)) == r
  }

  lemma SurvivingMoney(gross: int, money: int)
    requires gross > 0 && money > 0 && MoneySurvives(gross, money)
    ensures ToPercentage(gross, money) > 0 && ToMoney(gross, ToPercentage(gross, money)) == money
  {
  }

  /** While every smaller discount survives, each needs a percentage of its own. */
  lemma {:induction false} PercentagesSpread(gross: int, money: nat)
    requires gross > 0 && forall d :: 1 <= d <= money ==> MoneySurvives(gross, d)
    ensures ToPercentage(gross, money) >= money
  {
    if money == 0 {
      RoundBounds(0, gross);
      RoundIsUnique(0, gross, 0);
    } else {
      PercentagesSpread(gross, money - 1);
      SurvivingMoney(gross, money);
      RoundGrows((money - 1) * 10000, money * 10000, gross);
      if money > 1 { SurvivingMoney(gross, money - 1); }
    }
  }

  /** Every discount on a gross survives up and down exactly when that gross is
      between one cent and 100.00. */
  lemma UpgradeThresholdIsExact(gross: int)
    ensures (forall d :: d > 0 ==> MoneySurvives(gross, d)) <==> 1 <= gross <= 10000
  {
    if 1 <= gross <= 10000 {
      forall d | d > 0 ensures MoneySurvives(gross, d) {
        UpgradeIsUndone(Receipt(gross - d, Some(d), Some(Percentage)));
      }
    } else if gross > 10000 {
      RoundIsUnique(gross * 10000, gross, 10000);
      if forall d :: d > 0 ==> MoneySurvives(gross, d) { PercentagesSpread(gross, gross); }
    } else {
      NegativeGrossNeverSurvives(gross);
    }
  }

  /** A gross of nothing divides by zero; a negative one, as a credit note has,
      turns the percentage negative, which the downgrade does not look at. */
  lemma NegativeGrossNeverSurvives(gross: int)
    requires gross <= 0
    ensures !MoneySurvives(gross, 1)
  {
    if gross < 0 { RoundBounds(10000, -gross); }
  }

  lemma {:induction false} AmountsSpread(gross: int, percentage: nat)
    requires gross > 0 && forall p :: 1 <= p <= percentage ==> PercentageSurvives(gross, p)
    ensures ToMoney(gross, percentage) >= percentage
  {
    if percentage == 0 {
      RoundIsUnique(0, 10000, 0);
    } else {
      AmountsSpread(gross, percentage - 1);
      SurvivingPercentage(gross, percentage);
      if percentage > 1 { SurvivingPercentage(gross, percentage - 1); }
      NonNegative(gross, percentage - 1);
      assert gross * percentage == gross * (percentage - 1) + gross;
      RoundGrows(gross * (percentage - 1), gross * percentage, 10000);
    }
  }

  lemma SurvivingPercentage(gross: int, percentage: int)
    requires gross > 0 && percentage > 0 && PercentageSurvives(gross, percentage)
    ensures ToMoney(gross, percentage) > 0 && ToPercentage(gross, ToMoney(gross, percentage)) == percentage
  {
    MoneyBounds(gross, percentage);
  }

  /** Every percentage of a gross survives down and up exactly when that gross is
      100.00 or more. */
  lemma DowngradeThresholdIsExact(gross: int)
    ensures (forall p :: p > 0 ==> PercentageSurvives(gross, p)) <==> gross >= 10000
  {
    if gross >= 10000 {
      forall p | p > 0 ensures PercentageSurvives(gross, p) {
        DowngradeIsUndone(Receipt(gross, Some(p), Some(Percentage)));
      }
    } else if gross > 0 {
      RoundIsUnique(gross * 10000, 10000, gross);
      if forall p :: p > 0 ==> PercentageSurvives(gross, p) { AmountsSpread(gross, 10000); }
    } else {
      RoundBounds(-gross, 10000);
      assert !PercentageSurvives(gross, 1);
    }
  }
}
